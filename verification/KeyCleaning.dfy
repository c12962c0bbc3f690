/** Why the ordered passes leave none of the nine key shapes behind: a pass
    leaves no match of its own pattern, and no pass, whatever its replacement,
    brings a match of another key shape into being. */
module KeyCleaning {
  import opened Text
  import opened SecretPatterns

  /** Every character a key-shaped match can depend on. */
  predicate IsToken(c: char) {
    IsWord(c) || IsSpace(c) || In(Opaque, c)
  }

  /** What a key prefix is made of. No pass ever writes a character of this kind that it did not read. */
  predicate IsPrefixChar(c: char) {
    IsLower(c) || IsDigit(c) || c == '-' || c == '_'
  }

  /** Prefixes start with a letter no placeholder can be confused with, and a
      match is either longer than any placeholder or contains an underscore. */
  predicate PrefixOk(prefix: string, min: nat) {
    && prefix != []
    && prefix[0] in {'s', 'p', 'g', 'l'}
    && (forall i :: 0 <= i < |prefix| ==> IsPrefixChar(prefix[i]))
    && ('_' in prefix || |prefix| + min >= 23)
  }

  /** A run of placeholder text: no room for a key, and closed by a character no key contains. */
  predicate PlaceholderOk(text: string) {
    && 0 < |text| < 23
    && text[|text| - 1] == '>'
    && text[0] == '<'
    && '_' !in text
    && (forall i :: 0 <= i < |text| ==> !IsSpace(text[i]))
  }

  predicate IsKeyLike(p: Pattern) {
    match p
    case KeyShape(_, _, prefixes, body, min, placeholder) =>
      && min > 0
      && body in {Alnum, AlnumUnder, AlnumUnderDash}
      && (forall i :: 0 <= i < |prefixes| ==> PrefixOk(prefixes[i], min))
      && PlaceholderOk(placeholder)
    case BearerToken => true
    case EnvAssignment => false
  }

  /** A key-shaped pattern or the assignment pattern. */
  predicate IsPass(p: Pattern) {
    p.EnvAssignment? || IsKeyLike(p)
  }

  // ----- what a key-shaped match looks at -----

  /** `a` may stand where `b` stood without a key-shaped pattern noticing. */
  predicate Alike(a: char, b: char) {
    a == b || (a == 'B' && b == 'b') || (IsSpace(a) && IsSpace(b))
  }

  /** The leading token characters of `t` are mirrored at the start of `u`. */
  predicate Follows(t: string, u: string) {
    t == [] || !IsToken(t[0]) || (u != [] && Alike(t[0], u[0]) && Follows(t[1..], u[1..]))
  }

  lemma {:induction false} FollowsPrefix(prefix: string, t: string, u: string)
    requires prefix <= t && Follows(t, u)
    requires forall i :: 0 <= i < |prefix| ==> IsPrefixChar(prefix[i])
    ensures prefix <= u && Follows(t[|prefix|..], u[|prefix|..])
  {
    if prefix != [] {
      assert IsPrefixChar(prefix[0]) && prefix[0] == t[0];
      assert prefix[1..] <= t[1..];
      assert forall i :: 0 <= i < |prefix[1..]| ==> prefix[1..][i] == prefix[i + 1];
      FollowsPrefix(prefix[1..], t[1..], u[1..]);
      assert t[1..][|prefix| - 1..] == t[|prefix|..];
      assert u[1..][|prefix| - 1..] == u[|prefix|..];
    }
  }

  lemma {:induction false} FollowsRun(k: CharClass, t: string, u: string)
    requires Follows(t, u) && k in {Alnum, AlnumUnder, AlnumUnderDash, Opaque}
    ensures Run(k, t) <= Run(k, u)
  {
    if Run(k, t) > 0 {
      FollowsRun(k, t[1..], u[1..]);
    }
  }

  /** White space followed by a token character is white space of the same length on both sides. */
  lemma {:induction false} FollowsSpace(t: string, u: string)
    requires Follows(t, u)
    requires Run(Space, t) < |t| && In(Opaque, t[Run(Space, t)])
    ensures Run(Space, u) == Run(Space, t)
    ensures Follows(t[Run(Space, t)..], u[Run(Space, u)..])
  {
    if Run(Space, t) > 0 {
      FollowsSpace(t[1..], u[1..]);
      assert t[1..][Run(Space, t[1..])..] == t[Run(Space, t)..];
      assert u[1..][Run(Space, u[1..])..] == u[Run(Space, u)..];
    } else {
      assert t[0..] == t && u[0..] == u;
    }
  }

  lemma {:induction false} FollowsKeyLen(prefixes: seq<string>, body: CharClass, min: nat, t: string, u: string)
    requires Follows(t, u) && body in {Alnum, AlnumUnder, AlnumUnderDash}
    requires forall i :: 0 <= i < |prefixes| ==> PrefixOk(prefixes[i], min)
    requires KeyLen(prefixes, body, min, t) > 0
    ensures KeyLen(prefixes, body, min, u) > 0
    decreases |prefixes|
  {
    var prefix := prefixes[0];
    assert PrefixOk(prefix, min);
    if prefix <= t && Run(body, t[|prefix|..]) >= min {
      FollowsPrefix(prefix, t, u);
      FollowsRun(body, t[|prefix|..], u[|prefix|..]);
    } else {
      assert forall i :: 0 <= i < |prefixes[1..]| ==> prefixes[1..][i] == prefixes[i + 1];
      FollowsKeyLen(prefixes[1..], body, min, t, u);
    }
  }

  lemma FollowsScheme(t: string, u: string)
    requires Follows(t, u) && ("Bearer" <= t || "bearer" <= t)
    ensures "Bearer" <= u || "bearer" <= u
    ensures Follows(t[6..], u[6..])
  {
    assert t[0] in {'B', 'b'};
    assert "earer" <= t[1..];
    FollowsPrefix("earer", t[1..], u[1..]);
    assert t[1..][5..] == t[6..] && u[1..][5..] == u[6..];
    assert u[0] in {'B', 'b'};
    assert u[1..6] == "earer";
    assert u == [u[0]] + u[1..6] + u[6..];
  }

  lemma {:induction false} FollowsBearer(t: string, u: string)
    requires Follows(t, u) && BearerLen(t) > 0
    ensures BearerLen(u) > 0
  {
    FollowsScheme(t, u);
    var gap := Run(Space, t[6..]);
    assert t[6..][gap..] == t[6 + gap..];
    assert In(Opaque, t[6 + gap]) by {
      RunMembers(Opaque, t[6 + gap..], 0);
    }
    FollowsSpace(t[6..], u[6..]);
    assert u[6..][gap..] == u[6 + gap..];
    FollowsRun(Opaque, t[6 + gap..], u[6 + gap..]);
  }

  /** A key-shaped match survives being read through `Follows`. */
  lemma MatchTransfers(p: Pattern, w: bool, t: string, u: string)
    requires IsKeyLike(p) && Follows(t, u)
    requires MatchLen(p, w, t) > 0
    ensures MatchLen(p, w, u) > 0
  {
    match p
    case KeyShape(_, boundary, prefixes, body, min, _) =>
      FollowsKeyLen(prefixes, body, min, t, u);
    case BearerToken =>
      FollowsBearer(t, u);
  }

  lemma {:induction false} KeyStart(prefixes: seq<string>, body: CharClass, min: nat, u: string)
    requires forall i :: 0 <= i < |prefixes| ==> PrefixOk(prefixes[i], min)
    requires KeyLen(prefixes, body, min, u) > 0
    ensures u[0] in {'s', 'p', 'g', 'l'}
    ensures '_' in u || |u| >= 23
    decreases |prefixes|
  {
    var prefix := prefixes[0];
    assert PrefixOk(prefix, min);
    if prefix <= u && Run(body, u[|prefix|..]) >= min {
      assert u[..|prefix|] == prefix;
    } else {
      assert forall i :: 0 <= i < |prefixes[1..]| ==> prefixes[1..][i] == prefixes[i + 1];
      KeyStart(prefixes[1..], body, min, u);
    }
  }

  /** A key-shaped match starts with one of six letters, so never where a match could have stopped. */
  lemma MatchStart(p: Pattern, w: bool, u: string)
    requires IsKeyLike(p) && MatchLen(p, w, u) > 0
    ensures u[0] in {'s', 'p', 'g', 'l', 'B', 'b'}
  {
    if p.KeyShape? {
      KeyStart(p.prefixes, p.body, p.min, u);
    }
  }

  // ----- the text after a replacement -----

  lemma {:induction false} FollowsSame(x: string, t: string, u: string)
    requires t == [] || !IsToken(t[0])
    ensures Follows(x + t, x + u)
  {
    if x != [] {
      FollowsSame(x[1..], t, u);
      assert (x + t)[1..] == x[1..] + t;
      assert (x + u)[1..] == x[1..] + u;
    } else {
      assert x + t == t;
    }
  }

  lemma {:induction false} BearerFollows(u: string, t: string)
    requires BearerLen(u) > 0
    requires "Bearer " <= t && |t| > 7 && t[7] == '<'
    ensures Follows(t, u)
  {
    RunMembers(Space, u[6..], 0);
    assert IsSpace(u[6]);
    assert Follows(t[7..], u[7..]);
    var i := 7;
    while i > 0
      invariant 0 <= i <= 7
      invariant Follows(t[i..], u[i..])
    {
      i := i - 1;
      assert Alike(t[i], u[i]);
      assert t[i..][1..] == t[i + 1..] && u[i..][1..] == u[i + 1..];
    }
    assert t[0..] == t && u[0..] == u;
  }

  lemma EnvFollows(u: string, rest: string)
    ensures Follows(u[..Run(EnvName, u)] + "=<secret:env>" + rest, u)
  {
    var a := Run(EnvName, u);
    var tail := "=<secret:env>" + rest;
    assert tail[0] == '=';
    FollowsSame(u[..a], tail, u[a..]);
    assert u[..a] + u[a..] == u;
    assert u[..a] + tail == u[..a] + "=<secret:env>" + rest;
  }

  lemma BearerText(rest: string)
    ensures var t := "Bearer <secret:bearer>" + rest; "Bearer " <= t && |t| > 7 && t[7] == '<'
  {
  }

  lemma ReplacementFollows(q: Pattern, w: bool, u: string, rest: string)
    requires IsPass(q) && MatchLen(q, w, u) > 0
    ensures Follows(Replacement(q, u) + rest, u)
  {
    if q.KeyShape? {
      assert (q.placeholder + rest)[0] == '<';
    } else if q.BearerToken? {
      BearerText(rest);
      BearerFollows(u, "Bearer <secret:bearer>" + rest);
    } else {
      EnvFollows(u, rest);
    }
  }

  /** Replacing rewrites the token text at the front only up to likeness, and can only shorten it. */
  lemma {:induction false} ReplaceFollows(q: Pattern, w: bool, u: string)
    requires IsPass(q)
    ensures Follows(Replace(q, w, u), u)
    decreases |u|
  {
    hide MatchLen, Replacement;
    if u != [] {
      var n := MatchLen(q, w, u);
      if n == 0 {
        ReplaceFollows(q, IsWord(u[0]), u[1..]);
        assert Replace(q, w, u)[1..] == Replace(q, IsWord(u[0]), u[1..]);
      } else {
        ReplacementFollows(q, w, u, Replace(q, IsWord(u[n - 1]), u[n..]));
      }
    }
  }

  lemma {:induction false} KeyEnd(prefixes: seq<string>, body: CharClass, min: nat, u: string)
    requires body in {Alnum, AlnumUnder, AlnumUnderDash}
    requires 0 < KeyLen(prefixes, body, min, u) < |u|
    ensures !IsLetter(u[KeyLen(prefixes, body, min, u)])
    decreases |prefixes|
  {
    var prefix := prefixes[0];
    if !(prefix <= u && Run(body, u[|prefix|..]) >= min) {
      KeyEnd(prefixes[1..], body, min, u);
    }
  }

  lemma BearerEnd(u: string)
    requires 0 < BearerLen(u) < |u|
    ensures !IsWord(u[BearerLen(u) - 1]) || !IsLetter(u[BearerLen(u)])
  {
    var gap := Run(Space, u[6..]);
    var k := 6 + gap + Run(Opaque, u[6 + gap..]);
    var n := BearerLen(u);
    if n > k {
      RunMembers(Padding, u[k..], n - k - 1);
    } else {
      assert u[6 + gap..][k - 6 - gap] == u[n];
    }
  }

  /** A match ends where no letter follows, or on a character that is no word character:
      the text after it reads the same whatever stands before it. */
  lemma MatchEnd(q: Pattern, w: bool, u: string)
    requires IsPass(q)
    requires 0 < MatchLen(q, w, u) < |u|
    ensures !IsWord(u[MatchLen(q, w, u) - 1]) || !IsLetter(u[MatchLen(q, w, u)])
  {
    hide KeyLen, BearerLen, EnvLen, IsWord, IsLetter;
    match q
    case KeyShape(_, _, prefixes, body, min, _) =>
      KeyEnd(prefixes, body, min, u);
    case BearerToken =>
      BearerEnd(u);
    case EnvAssignment =>
      AssignmentEnd(w, u);
  }

  lemma NoKeyIn(p: Pattern, w: bool, text: string)
    requires IsKeyLike(p)
    requires |text| < 23 && '_' !in text
    requires forall i :: 0 <= i < |text| ==> !IsSpace(text[i])
    ensures MatchLen(p, w, text) == 0
  {
    if MatchLen(p, w, text) > 0 {
      if p.KeyShape? {
        KeyStart(p.prefixes, p.body, p.min, text);
      }
    }
  }

  /** A placeholder holds no key, whatever follows it. */
  lemma {:induction false} CleanBefore(p: Pattern, w: bool, text: string, rest: string)
    requires IsKeyLike(p)
    requires 0 < |text| < 23 && text[|text| - 1] == '>'
    requires '_' !in text
    requires forall i :: 0 <= i < |text| ==> !IsSpace(text[i])
    requires Clean(p, false, rest)
    ensures Clean(p, w, text + rest)
    decreases |text|
  {
    hide EnvLen, KeyLen, BearerLen;
    var t := text + rest;
    if MatchLen(p, w, t) > 0 {
      var body := text[..|text| - 1];
      FollowsSame(body, ">" + rest, ">");
      assert body + (">" + rest) == t && body + ">" == text;
      MatchTransfers(p, w, t, text);
      NoKeyIn(p, w, text);
    }
    if |text| == 1 {
      assert t[1..] == rest;
    } else {
      assert t[1..] == text[1..] + rest;
      CleanBefore(p, IsWord(text[0]), text[1..], rest);
    }
  }

  /** Text without a character that could start a key is clean up to what follows it. */
  lemma {:induction false} CleanThrough(p: Pattern, w: bool, head: string, rest: string)
    requires IsKeyLike(p) && head != []
    requires forall i :: 0 <= i < |head| ==> head[i] !in {'s', 'p', 'g', 'l', 'B', 'b'}
    requires Clean(p, IsWord(head[|head| - 1]), rest)
    ensures Clean(p, w, head + rest)
    decreases |head|
  {
    var t := head + rest;
    if MatchLen(p, w, t) > 0 {
      MatchStart(p, w, t);
      assert false;
    }
    if |head| == 1 {
      assert t[1..] == rest;
    } else {
      assert t[1..] == head[1..] + rest;
      CleanThrough(p, IsWord(head[0]), head[1..], rest);
    }
  }

  lemma NoBearerBeforeMarkup(t: string)
    requires "Bearer " <= t && |t| > 7 && t[7] == '<'
    ensures BearerLen(t) == 0
  {
    assert t[6] == ' ';
    RunIs(Space, t[6..], 1);
  }

  lemma NoBearer(p: Pattern, w: bool, t: string)
    requires IsKeyLike(p)
    requires "Bearer " <= t && |t| > 7 && t[7] == '<'
    ensures MatchLen(p, w, t) == 0
  {
    NoBearerBeforeMarkup(t);
    if p.KeyShape? && MatchLen(p, w, t) > 0 {
      KeyStart(p.prefixes, p.body, p.min, t);
    }
  }

  lemma BearerSplit(rest: string)
    ensures "Bearer <secret:bearer>" + rest == "B" + ("earer " + ("<secret:bearer>" + rest))
  {
    assert "Bearer <secret:bearer>" == "B" + "earer " + "<secret:bearer>";
  }

  lemma CleanAfterB(p: Pattern, w: bool, t: string, tail: string)
    requires IsKeyLike(p) && Clean(p, false, tail)
    requires t == "B" + ("earer " + tail) && tail != [] && tail[0] == '<'
    ensures Clean(p, w, t)
  {
    CleanThrough(p, true, "earer ", tail);
    assert t[1..] == "earer " + tail;
    NoBearer(p, w, t);
  }

  lemma CleanBearer(p: Pattern, w: bool, rest: string)
    requires IsKeyLike(p) && Clean(p, false, rest)
    ensures Clean(p, w, "Bearer <secret:bearer>" + rest)
  {
    var tail := "<secret:bearer>" + rest;
    CleanBefore(p, false, "<secret:bearer>", rest);
    BearerSplit(rest);
    assert tail[0] == '<';
    CleanAfterB(p, w, "Bearer <secret:bearer>" + rest, tail);
  }

  lemma CleanEnv(p: Pattern, w: bool, rest: string)
    requires IsKeyLike(p) && Clean(p, false, rest)
    ensures Clean(p, w, "=<secret:env>" + rest)
  {
    hide MatchLen, Clean;
    CleanBefore(p, false, "<secret:env>", rest);
    CleanThrough(p, w, "=", "<secret:env>" + rest);
    assert "=" + ("<secret:env>" + rest) == "=<secret:env>" + rest;
  }

  /** The name an assignment keeps holds no key that the text it came from did not hold. */
  lemma {:induction false} CleanName(p: Pattern, w: bool, name: string, u: string, tail: string)
    requires IsKeyLike(p)
    requires name <= u && Clean(p, w, u)
    requires tail != [] && !IsToken(tail[0])
    requires forall b :: Clean(p, b, tail)
    ensures Clean(p, w, name + tail)
    decreases |name|
  {
    var t := name + tail;
    if name == [] {
      assert t == tail;
    } else {
      if MatchLen(p, w, t) > 0 {
        FollowsSame(name, tail, u[|name|..]);
        assert name + u[|name|..] == u;
        MatchTransfers(p, w, t, u);
        assert false;
      }
      CleanName(p, IsWord(u[0]), name[1..], u[1..], tail);
      assert t[1..] == name[1..] + tail;
    }
  }

  lemma CleanRewrite(p: Pattern, u: string, rest: string)
    requires IsKeyLike(p) && Clean(p, false, u) && Clean(p, false, rest)
    ensures Clean(p, false, Replacement(EnvAssignment, u) + rest)
  {
    hide MatchLen, Clean;
    var name := u[..Run(EnvName, u)];
    var tail := "=<secret:env>" + rest;
    forall b ensures Clean(p, b, tail) {
      CleanEnv(p, b, rest);
    }
    assert tail[0] == '=';
    CleanName(p, false, name, u, tail);
    assert name + tail == Replacement(EnvAssignment, u) + rest;
  }

  lemma ReplacementLeavesClean(p: Pattern, q: Pattern, w: bool, w': bool, u: string, rest: string)
    requires IsKeyLike(p) && IsPass(q)
    requires p == q || Clean(p, w, u)
    requires w == w' || u == [] || !IsLetter(u[0])
    requires MatchLen(q, w, u) > 0 && Clean(p, false, rest)
    ensures Clean(p, w', Replacement(q, u) + rest)
  {
    if q.EnvAssignment? {
      AssignmentStart(w, u);
      hide MatchLen, Clean, Replacement;
      CleanRewrite(p, u, rest);
    } else {
      hide MatchLen, Clean;
      if q.KeyShape? {
        CleanBefore(p, w', q.placeholder, rest);
      } else {
        CleanBearer(p, w', rest);
      }
    }
  }

  /** A pass of `q` leaves `p` without a match if `p` had none before, or if `p` is `q` itself.
      The word characters before the two texts may differ only where no letter follows. */
  lemma {:induction false} ReplaceLeavesClean(p: Pattern, q: Pattern, w: bool, w': bool, u: string)
    requires IsKeyLike(p) && IsPass(q)
    requires p == q || Clean(p, w, u)
    requires w == w' || u == [] || !IsLetter(u[0])
    ensures Clean(p, w', Replace(q, w, u))
    decreases |u|
  {
    hide EnvLen, KeyLen, BearerLen, Replacement;
    if u != [] {
      var n := MatchLen(q, w, u);
      var t := Replace(q, w, u);
      if n == 0 {
        if MatchLen(p, w', t) > 0 {
          ReplaceFollows(q, w, u);
          MatchTransfers(p, w', t, u);
          MatchStart(p, w', u);
          assert false;
        }
        ReplaceLeavesClean(p, q, IsWord(u[0]), IsWord(u[0]), u[1..]);
        assert t[1..] == Replace(q, IsWord(u[0]), u[1..]);
      } else {
        var rest := Replace(q, IsWord(u[n - 1]), u[n..]);
        if p != q {
          CleanDrop(p, w, u, n);
        }
        if n < |u| {
          MatchEnd(q, w, u);
        }
        ReplaceLeavesClean(p, q, IsWord(u[n - 1]), false, u[n..]);
        ReplacementLeavesClean(p, q, w, w', u, rest);
      }
    }
  }

  lemma PrefixIsOk(prefix: string, min: nat)
    requires prefix in {"sk-or-v1-", "sk-ant-", "sk-proj-", "sk-"} && |prefix| + min >= 23
    ensures PrefixOk(prefix, min)
  {
  }

  lemma PlaceholdersAreOk()
    ensures PlaceholderOk("<secret:openrouter>") && PlaceholderOk("<secret:anthropic>")
    ensures PlaceholderOk("<secret:openai>") && PlaceholderOk("<secret:sk>")
  {
  }

  lemma SkKeysAreKeyLike()
    ensures IsKeyLike(OPENROUTER_KEY) && IsKeyLike(ANTHROPIC_KEY)
    ensures IsKeyLike(OPENAI_PROJECT_KEY) && IsKeyLike(GENERIC_SK_KEY)
  {
    PrefixIsOk("sk-or-v1-", 16);
    PrefixIsOk("sk-ant-", 16);
    PrefixIsOk("sk-proj-", 16);
    PrefixIsOk("sk-", 20);
    PlaceholdersAreOk();
    hide PrefixOk, PlaceholderOk;
  }

  lemma MorePlaceholdersAreOk()
    ensures PlaceholderOk("<secret:potion-key>") && PlaceholderOk("<secret:github>")
    ensures PlaceholderOk("<secret:github-pat>") && PlaceholderOk("<secret:linear>")
  {
  }

  lemma UnderscorePrefixIsOk(prefix: string, min: nat, k: nat)
    requires prefix in {"pk_", "github_pat_", "lin_api_", "lin_oauth_"}
    requires k < |prefix| && prefix[k] == '_'
    ensures PrefixOk(prefix, min)
  {
  }

  lemma GithubPrefixIsOk(prefix: string)
    requires prefix in {"gho_", "ghp_", "ghs_", "ghu_", "ghr_"}
    ensures PrefixOk(prefix, 16)
  {
    assert prefix[3] == '_';
  }

  lemma ServiceKeysAreKeyLike()
    ensures IsKeyLike(POTION_API_KEY) && IsKeyLike(GITHUB_TOKEN)
    ensures IsKeyLike(GITHUB_PAT) && IsKeyLike(LINEAR_KEY)
  {
    MorePlaceholdersAreOk();
    UnderscorePrefixIsOk("pk_", 4, 2);
    UnderscorePrefixIsOk("github_pat_", 20, 6);
    UnderscorePrefixIsOk("lin_api_", 16, 3);
    UnderscorePrefixIsOk("lin_oauth_", 16, 3);
    forall prefix | prefix in {"gho_", "ghp_", "ghs_", "ghu_", "ghr_"} ensures PrefixOk(prefix, 16) {
      GithubPrefixIsOk(prefix);
    }
    hide PrefixOk, PlaceholderOk;
  }

  /** The lemmas of this module apply to all nine. */
  lemma PatternsAreKeyLike(i: nat)
    requires i < |KeyPatterns()|
    ensures IsKeyLike(KeyPatterns()[i])
  {
    SkKeysAreKeyLike();
    ServiceKeysAreKeyLike();
    assert IsKeyLike(BearerToken);
    hide IsKeyLike;
  }
}
