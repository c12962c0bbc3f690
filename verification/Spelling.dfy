/** Character classes with their characters spelled out. */
module Spelling {
  import opened Text

  const UPPER := "ABCDEFGHIJKLMNOPQRSTUVWXYZ"
  const LOWER := "abcdefghijklmnopqrstuvwxyz"
  const DIGITS := "0123456789"

  /** The characters that `\s` stands for. */
  const SPACES := "\t\n\U{0B}\U{0C}\r \U{A0}\U{1680}\U{2000}\U{2001}\U{2002}\U{2003}\U{2004}\U{2005}\U{2006}\U{2007}\U{2008}\U{2009}\U{200A}\U{2028}\U{2029}\U{202F}\U{205F}\U{3000}\U{FEFF}"

  predicate White(c: char) {
    c in SPACES
  }

  predicate MadeOf(s: string, chars: string) {
    forall i :: 0 <= i < |s| ==> s[i] in chars
  }

  predicate FreeOf(s: string, chars: string) {
    forall i :: 0 <= i < |s| ==> s[i] !in chars
  }

  lemma UpperSpelled(c: char)
    ensures IsUpper(c) <==> c in UPPER
  {
    if IsUpper(c) {
      assert UPPER[c as int - 'A' as int] == c;
    }
  }

  lemma LowerSpelled(c: char)
    ensures IsLower(c) <==> c in LOWER
  {
    if IsLower(c) {
      assert LOWER[c as int - 'a' as int] == c;
    }
  }

  lemma DigitSpelled(c: char)
    ensures IsDigit(c) <==> c in DIGITS
  {
    if IsDigit(c) {
      assert DIGITS[c as int - '0' as int] == c;
    }
  }

  lemma SpaceSpelled(c: char)
    ensures IsSpace(c) <==> c in SPACES
  {
    if '\t' <= c <= '\r' {
      assert SPACES[c as int - '\t' as int] == c;
    } else if '\U{2000}' <= c <= '\U{200A}' {
      assert SPACES[8 + c as int - 0x2000] == c;
    } else if IsSpace(c) {
      assert c in {SPACES[5], SPACES[6], SPACES[7], SPACES[19], SPACES[20], SPACES[21], SPACES[22], SPACES[23], SPACES[24]};
    }
  }
}
