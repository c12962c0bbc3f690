/** Characters, character classes and the few string operations the patterns
    are made of. A `char` stands for one UTF-16 code unit of a JavaScript
    string (or one code point of a Python one). */
module Text {

  predicate IsUpper(c: char) {
    'A' <= c <= 'Z'
  }

  predicate IsLower(c: char) {
    'a' <= c <= 'z'
  }

  predicate IsLetter(c: char) {
    IsUpper(c) || IsLower(c)
  }

  predicate IsDigit(c: char) {
    '0' <= c <= '9'
  }

  /** The regular-expression class `\w`; `\b` separates it from its complement. */
  predicate IsWord(c: char) {
    IsLetter(c) || IsDigit(c) || c == '_'
  }

  /** The regular-expression class `\s`, which is also what `trim` removes. */
  predicate IsSpace(c: char) {
    || '\t' <= c <= '\r'
    || c == ' '
    || c == '\U{A0}'
    || c == '\U{1680}'
    || '\U{2000}' <= c <= '\U{200A}'
    || c == '\U{2028}' || c == '\U{2029}' || c == '\U{202F}' || c == '\U{205F}'
    || c == '\U{3000}' || c == '\U{FEFF}'
  }

  /** The character classes that occur in the credential patterns. */
  datatype CharClass =
    | Alnum           // [A-Za-z0-9]
    | AlnumUnder      // [A-Za-z0-9_]
    | AlnumUnderDash  // [A-Za-z0-9_-]
    | Opaque          // [A-Za-z0-9._~+/-]
    | Padding         // =
    | Space           // \s
    | EnvName         // [A-Z0-9_]
    | Bare            // [^\s"';|&]

  predicate In(k: CharClass, c: char) {
    match k
    case Alnum => IsLetter(c) || IsDigit(c)
    case AlnumUnder => IsWord(c)
    case AlnumUnderDash => IsWord(c) || c == '-'
    case Opaque => IsLetter(c) || IsDigit(c) || c == '.' || c == '_' || c == '~' || c == '+' || c == '/' || c == '-'
    case Padding => c == '='
    case Space => IsSpace(c)
    case EnvName => IsUpper(c) || IsDigit(c) || c == '_'
    case Bare => !IsSpace(c) && c != '"' && c != '\'' && c != ';' && c != '|' && c != '&'
  }

  /** How many leading characters of `s` lie in class `k`: what a greedy `k*` takes. */
  function Run(k: CharClass, s: string): (n: nat)
    ensures n <= |s|
    ensures n < |s| ==> !In(k, s[n])
  {
    if s == [] || !In(k, s[0]) then 0 else 1 + Run(k, s[1..])
  }

  lemma {:induction false} RunMembers(k: CharClass, s: string, i: nat)
    requires i < Run(k, s)
    ensures In(k, s[i])
  {
    if i > 0 {
      RunMembers(k, s[1..], i - 1);
    }
  }

  /** A greedy run is determined by where it stops. */
  lemma {:induction false} RunIs(k: CharClass, s: string, n: nat)
    requires n <= |s|
    requires forall i :: 0 <= i < n ==> In(k, s[i])
    requires n < |s| ==> !In(k, s[n])
    ensures Run(k, s) == n
  {
    if n > 0 {
      assert forall i :: 0 <= i < n - 1 ==> s[1..][i] == s[i + 1];
      RunIs(k, s[1..], n - 1);
    }
  }

  predicate EndsWith(s: string, suffix: string) {
    |suffix| <= |s| && s[|s| - |suffix|..] == suffix
  }

  /** What Python's `$` leaves to match in front of it: a final newline is not part of it. */
  function DropNewline(s: string): string {
    if s != [] && s[|s| - 1] == '\n' then s[..|s| - 1] else s
  }
}
