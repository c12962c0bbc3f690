/** The ten credential shapes, and `String.replace` with the `g` flag for one of
    them. A position is described by the rest of the text and by whether the
    character before it is a word character, which is all that `\b` looks at. */
module SecretPatterns {
  import opened Text

  datatype Pattern =
    | KeyShape(name: string, boundary: bool, prefixes: seq<string>, body: CharClass, min: nat, placeholder: string)
    | BearerToken
    | EnvAssignment
  {
    function Name(): string {
      match this
      case KeyShape(name, _, _, _, _, _) => name
      case BearerToken => "bearer-token"
      case EnvAssignment => "env-assignment"
    }
  }

  const OPENROUTER_KEY := KeyShape("openrouter-key", false, ["sk-or-v1-"], Alnum, 16, "<secret:openrouter>")
  const ANTHROPIC_KEY := KeyShape("anthropic-key", false, ["sk-ant-"], AlnumUnderDash, 16, "<secret:anthropic>")
  const OPENAI_PROJECT_KEY := KeyShape("openai-project-key", false, ["sk-proj-"], AlnumUnderDash, 16, "<secret:openai>")
  const GENERIC_SK_KEY := KeyShape("generic-sk-key", true, ["sk-"], AlnumUnderDash, 20, "<secret:sk>")
  const POTION_API_KEY := KeyShape("potion-api-key", true, ["pk_"], AlnumUnder, 4, "<secret:potion-key>")
  const GITHUB_TOKEN := KeyShape("github-token", true, ["gho_", "ghp_", "ghs_", "ghu_", "ghr_"], Alnum, 16, "<secret:github>")
  const GITHUB_PAT := KeyShape("github-fine-grained-pat", true, ["github_pat_"], AlnumUnder, 20, "<secret:github-pat>")
  const LINEAR_KEY := KeyShape("linear-key", true, ["lin_api_", "lin_oauth_"], Alnum, 16, "<secret:linear>")

  /** The key-shaped patterns, specific to generic. */
  function KeyPatterns(): seq<Pattern> {
    [OPENROUTER_KEY, ANTHROPIC_KEY, OPENAI_PROJECT_KEY, GENERIC_SK_KEY, POTION_API_KEY,
     GITHUB_TOKEN, GITHUB_PAT, LINEAR_KEY, BearerToken]
  }

  /** All patterns; the assignment rule comes last. */
  function Patterns(): seq<Pattern> {
    KeyPatterns() + [EnvAssignment]
  }

  const ENV_SUFFIXES: seq<string> := ["KEY", "TOKEN", "SECRET", "PASSWORD", "PASSWD", "CREDENTIALS"]

  // ----- one match, anchored at the start of the text -----

  /** Length of `prefix[body]{min,}` at the start of `u`, for the first prefix that fits; 0 for none. */
  function KeyLen(prefixes: seq<string>, body: CharClass, min: nat, u: string): (n: nat)
    ensures n <= |u|
  {
    if prefixes == [] then 0
    else if prefixes[0] <= u && Run(body, u[|prefixes[0]|..]) >= min then
      |prefixes[0]| + Run(body, u[|prefixes[0]|..])
    else KeyLen(prefixes[1..], body, min, u)
  }

  /** Length of `(Bearer|bearer)\s+[A-Za-z0-9._~+/-]{8,}=*` at the start of `u`; 0 for none. */
  function BearerLen(u: string): (n: nat)
    ensures n <= |u|
  {
    if !("Bearer" <= u || "bearer" <= u) then 0 else
    var gap := Run(Space, u[6..]);
    var token := Run(Opaque, u[6 + gap..]);
    if gap == 0 || token < 8 then 0
    else 6 + gap + token + Run(Padding, u[6 + gap + token..])
  }

  predicate EndsWithAny(name: string, suffixes: seq<string>) {
    suffixes != [] && ((|suffixes[0]| < |name| && EndsWith(name, suffixes[0])) || EndsWithAny(name, suffixes[1..]))
  }

  /** The name part `[A-Z][A-Z0-9_]*(?:KEY|...)` has at least one character before the suffix. */
  predicate IsSecretName(name: string) {
    EndsWithAny(name, ENV_SUFFIXES)
  }

  /** Length of `\s*=\s*` at the start of `s`; 0 for none. */
  function EqualsLen(s: string): (n: nat)
    ensures n <= |s|
  {
    var e := Run(Space, s);
    var x := s[e..];
    if x == [] || x[0] != '=' then 0
    else e + 1 + Run(Space, x[1..])
  }

  /** Where the value of an assignment `NAME\s*=\s*` at the start of `u` begins; 0 if there is no such assignment. */
  function ValueStart(w: bool, u: string): (v: nat)
    ensures v <= |u|
    ensures v > 0 ==> !w && IsUpper(u[0]) && Run(EnvName, u) < v
  {
    if w || u == [] || !IsUpper(u[0]) then 0 else
    var a := Run(EnvName, u);
    if !IsSecretName(u[..a]) || EqualsLen(u[a..]) == 0 then 0
    else a + EqualsLen(u[a..])
  }

  /** The lookahead `['"]?<secret`. */
  predicate IsScrubbed(v: string) {
    "<secret" <= v || (v != [] && (v[0] == '"' || v[0] == '\'') && "<secret" <= v[1..])
  }

  /** Length up to and including the quote `q` that closes on this line; 0 if none does. */
  function QuoteLen(q: char, v: string): (n: nat)
    ensures n <= |v|
    ensures n > 0 ==> v[n - 1] == q
  {
    if v == [] then 0
    else if v[0] == q then 1
    else if v[0] == '\n' then 0
    else var n := QuoteLen(q, v[1..]); if n == 0 then 0 else n + 1
  }

  /** Length of `"[^"\n]*"|'[^'\n]*'|[^\s"';|&]+` at the start of `v`; 0 for none. */
  function ValueLen(v: string): (n: nat)
    ensures n <= |v|
  {
    if v == [] then 0
    else if v[0] == '"' || v[0] == '\'' then
      var n := QuoteLen(v[0], v[1..]); if n == 0 then 0 else n + 1
    else Run(Bare, v)
  }

  function EnvLen(w: bool, u: string): (n: nat)
    ensures n <= |u|
    ensures n > 0 ==> ValueStart(w, u) > 0 && ValueStart(w, u) < n
  {
    var v := ValueStart(w, u);
    if v == 0 || IsScrubbed(u[v..]) || ValueLen(u[v..]) == 0 then 0
    else v + ValueLen(u[v..])
  }

  /** Length of the match of `p` at the start of `u`, where `w` says whether the
      preceding character is a word character; 0 if `p` does not match there. */
  function MatchLen(p: Pattern, w: bool, u: string): (n: nat)
    ensures n <= |u|
  {
    match p
    case KeyShape(_, boundary, prefixes, body, min, _) =>
      if boundary && w then 0 else KeyLen(prefixes, body, min, u)
    case BearerToken => if w then 0 else BearerLen(u)
    case EnvAssignment => EnvLen(w, u)
  }

  /** What replaces a match of `p` at the start of `u`. */
  function Replacement(p: Pattern, u: string): string {
    match p
    case KeyShape(_, _, _, _, _, placeholder) => placeholder
    case BearerToken => "Bearer <secret:bearer>"
    case EnvAssignment => u[..Run(EnvName, u)] + "=<secret:env>"
  }

  // ----- replacing every match, searching for any match -----

  /** `u.replace(p, ...)`: leftmost matches, left to right, each resuming where the last ended. */
  function Replace(p: Pattern, w: bool, u: string): string
    decreases |u|
  {
    if u == [] then []
    else
      var n := MatchLen(p, w, u);
      if n == 0 then [u[0]] + Replace(p, IsWord(u[0]), u[1..])
      else Replacement(p, u) + Replace(p, IsWord(u[n - 1]), u[n..])
  }

  /** No match of `p` anywhere in `u`. */
  predicate Clean(p: Pattern, w: bool, u: string)
    decreases |u|
  {
    u != [] ==> MatchLen(p, w, u) == 0 && Clean(p, IsWord(u[0]), u[1..])
  }

  /** Is the character before position `i` of `s` a word character? */
  predicate WordBefore(s: string, i: nat)
    requires i <= |s|
  {
    i > 0 && IsWord(s[i - 1])
  }

  /** `p.test(s)`: some position of `s` starts a match. */
  ghost predicate Occurs(p: Pattern, s: string) {
    exists i: nat :: i < |s| && MatchLen(p, WordBefore(s, i), s[i..]) > 0
  }

  lemma {:induction false} CleanDrop(p: Pattern, w: bool, u: string, n: nat)
    requires Clean(p, w, u) && n <= |u|
    ensures Clean(p, if n == 0 then w else IsWord(u[n - 1]), u[n..])
    decreases n
  {
    hide MatchLen, IsWord;
    if n == 0 {
      assert u[0..] == u;
    } else {
      CleanDrop(p, IsWord(u[0]), u[1..], n - 1);
      assert u[1..][n - 1..] == u[n..];
    }
  }

  lemma {:induction false} CleanFromPositions(p: Pattern, s: string, i: nat)
    requires i <= |s|
    requires !Occurs(p, s)
    ensures Clean(p, WordBefore(s, i), s[i..])
    decreases |s| - i
  {
    hide MatchLen, IsWord;
    if i < |s| {
      CleanFromPositions(p, s, i + 1);
      assert s[i..][1..] == s[i + 1..];
      assert MatchLen(p, WordBefore(s, i), s[i..]) == 0;
    }
  }

  /** The scan and the search agree: a text is clean exactly when no position of it starts a match. */
  lemma {:induction false} CleanIffNoOccurrence(p: Pattern, s: string)
    ensures Clean(p, false, s) <==> !Occurs(p, s)
  {
    hide MatchLen, IsWord;
    if Clean(p, false, s) {
      forall i: nat | i < |s| ensures MatchLen(p, WordBefore(s, i), s[i..]) == 0 {
        CleanDrop(p, false, s, i);
      }
    }
    if !Occurs(p, s) {
      CleanFromPositions(p, s, 0);
      assert s[0..] == s;
    }
  }

  /** Text without a match is left alone. */
  lemma {:induction false} ReplaceKeepsClean(p: Pattern, w: bool, u: string)
    requires Clean(p, w, u)
    ensures Replace(p, w, u) == u
    decreases |u|
  {
    hide MatchLen, IsWord;
    if u != [] {
      ReplaceKeepsClean(p, IsWord(u[0]), u[1..]);
    }
  }

  // ----- the ends of an assignment -----

  lemma ValueEnd(x: string)
    requires 0 < ValueLen(x) < |x|
    ensures !IsWord(x[ValueLen(x) - 1]) || !IsLetter(x[ValueLen(x)])
  {
    if x[0] == '"' || x[0] == '\'' {
      assert x[1..][ValueLen(x) - 2] == x[0];
    }
  }

  lemma AssignmentStart(w: bool, u: string)
    requires MatchLen(EnvAssignment, w, u) > 0
    ensures !w && u != [] && IsUpper(u[0])
  {
  }

  lemma AssignmentEnd(w: bool, u: string)
    requires 0 < MatchLen(EnvAssignment, w, u) < |u|
    ensures !IsWord(u[MatchLen(EnvAssignment, w, u) - 1]) || !IsLetter(u[MatchLen(EnvAssignment, w, u)])
  {
    hide ValueStart, ValueLen, IsScrubbed, IsWord, IsLetter;
    ValueEnd(u[ValueStart(w, u)..]);
  }
}
