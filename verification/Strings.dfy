/** Splitting, joining and sorting, as JavaScript and Python do it for single-character
    delimiters and plain string order. */
module Strings {
  import Text
  import opened Spelling

  // ----- split and join -----

  /** `s.split(d)`: never empty. */
  function Split(s: string, d: char): (parts: seq<string>)
    ensures parts != []
    ensures forall i :: 0 <= i < |parts| ==> d !in parts[i]
  {
    if s == [] then [""]
    else
      var rest := Split(s[1..], d);
      if s[0] == d then [""] + rest else [[s[0]] + rest[0]] + rest[1..]
  }

  function Join(parts: seq<string>, d: char): string {
    if parts == [] then "" else if |parts| == 1 then parts[0] else parts[0] + [d] + Join(parts[1..], d)
  }

  lemma {:induction false} JoinOfSplit(s: string, d: char)
    ensures Join(Split(s, d), d) == s
  {
    if s != [] {
      JoinOfSplit(s[1..], d);
      var rest := Split(s[1..], d);
      if s[0] == d {
        assert ([""] + rest)[1..] == rest;
        assert Join([""] + rest, d) == "" + [d] + Join(rest, d);
      } else {
        var parts := [[s[0]] + rest[0]] + rest[1..];
        assert parts[1..] == rest[1..];
        assert |rest| > 1 ==> Join(parts, d) == [s[0]] + rest[0] + [d] + Join(rest[1..], d);
        assert Join(parts, d) == [s[0]] + Join(rest, d);
      }
    }
  }

  lemma {:induction false} SplitWithout(s: string, d: char)
    requires d !in s
    ensures Split(s, d) == [s]
  {
    if s != [] {
      SplitWithout(s[1..], d);
      assert [s[0]] + s[1..] == s;
    }
  }

  lemma {:induction false} SplitAt(head: string, rest: string, d: char)
    requires d !in head
    ensures Split(head + [d] + rest, d) == [head] + Split(rest, d)
  {
    var s := head + [d] + rest;
    if head == [] {
      assert s[0] == d && s[1..] == rest;
    } else {
      assert s[1..] == head[1..] + [d] + rest && s[0] == head[0];
      SplitAt(head[1..], rest, d);
      assert [head[0]] + head[1..] == head;
    }
  }

  lemma {:induction false} SplitOfJoin(parts: seq<string>, d: char)
    requires parts != [] && forall i :: 0 <= i < |parts| ==> d !in parts[i]
    ensures Split(Join(parts, d), d) == parts
  {
    if |parts| == 1 {
      SplitWithout(parts[0], d);
    } else {
      SplitOfJoin(parts[1..], d);
      SplitAt(parts[0], Join(parts[1..], d), d);
      assert [parts[0]] + parts[1..] == parts;
    }
  }

  // ----- order -----

  predicate Le(a: string, b: string) {
    a == [] || (b != [] && (a[0] < b[0] || (a[0] == b[0] && Le(a[1..], b[1..]))))
  }

  lemma {:induction false} LeTotal(a: string, b: string)
    ensures Le(a, b) || Le(b, a)
  {
    if a != [] && b != [] && a[0] == b[0] {
      LeTotal(a[1..], b[1..]);
    }
  }

  lemma {:induction false} LeAntisymmetric(a: string, b: string)
    requires Le(a, b) && Le(b, a)
    ensures a == b
  {
    if a != [] && b != [] {
      LeAntisymmetric(a[1..], b[1..]);
      assert a == [a[0]] + a[1..] && b == [b[0]] + b[1..];
    }
  }

  lemma {:induction false} LeTransitive(a: string, b: string, c: string)
    requires Le(a, b) && Le(b, c)
    ensures Le(a, c)
  {
    if a != [] && b != [] && c != [] && a[0] == b[0] && b[0] == c[0] {
      LeTransitive(a[1..], b[1..], c[1..]);
    }
  }

  /** The order is the lexicographic one: a prefix first, else by the first character that differs. */
  lemma {:induction false} LeIs(a: string, b: string)
    ensures Le(a, b) <==> a <= b || exists k :: FirstDifference(a, b, k) && a[k] < b[k]
  {
    if a != [] && b != [] {
      var x, y := a[1..], b[1..];
      assert a == [a[0]] + x && b == [b[0]] + y;
      if a[0] == b[0] {
        LeIs(x, y);
        forall k: nat ensures FirstDifference(a, b, k + 1) <==> FirstDifference(x, y, k) {
          DifferenceMoves(a, b, k);
        }
        assert !FirstDifference(a, b, 0);
        if k :| FirstDifference(a, b, k) && a[k] < b[k] {
          assert FirstDifference(x, y, k - 1) && x[k - 1] < y[k - 1];
        }
        if k :| FirstDifference(x, y, k) && x[k] < y[k] {
          assert FirstDifference(a, b, k + 1) && a[k + 1] < b[k + 1];
        }
      } else {
        assert FirstDifference(a, b, 0);
        forall k | 0 < k < |a| && k < |b| ensures a[..k] != b[..k] {
          assert a[..k][0] == a[0] && b[..k][0] == b[0];
        }
      }
    }
  }

  lemma DifferenceMoves(a: string, b: string, k: nat)
    requires a != [] && b != [] && a[0] == b[0]
    ensures FirstDifference(a, b, k + 1) <==> FirstDifference(a[1..], b[1..], k)
  {
    var x, y := a[1..], b[1..];
    if k < |x| && k < |y| {
      assert a[..k + 1] == [a[0]] + x[..k] && b[..k + 1] == [b[0]] + y[..k];
      assert x[..k] == a[..k + 1][1..] && y[..k] == b[..k + 1][1..];
    }
  }

  predicate FirstDifference(a: string, b: string, k: int) {
    0 <= k < |a| && k < |b| && a[..k] == b[..k] && a[k] != b[k]
  }

  ghost predicate Sorted(s: seq<string>) {
    forall i, j :: 0 <= i < j < |s| ==> Le(s[i], s[j])
  }

  function Insert(x: string, s: seq<string>): (t: seq<string>)
    ensures multiset(t) == multiset(s) + multiset{x}
    ensures |t| == |s| + 1
  {
    if s == [] then [x]
    else if Le(x, s[0]) then [x] + s
    else
      assert s == [s[0]] + s[1..];
      [s[0]] + Insert(x, s[1..])
  }

  /** `sorted(s)`, or `s.sort()`. */
  function Sort(s: seq<string>): (t: seq<string>)
    ensures multiset(t) == multiset(s)
    ensures |t| == |s|
  {
    if s == [] then []
    else
      assert s == [s[0]] + s[1..];
      Insert(s[0], Sort(s[1..]))
  }

  lemma {:induction false} InsertSorted(x: string, s: seq<string>)
    requires Sorted(s)
    ensures Sorted(Insert(x, s))
  {
    var t := Insert(x, s);
    if s != [] {
      if Le(x, s[0]) {
        forall j | 0 < j < |t| ensures Le(t[0], t[j]) {
          if j > 1 {
            LeTransitive(x, s[0], s[j - 1]);
          }
        }
      } else {
        LeTotal(x, s[0]);
        InsertSorted(x, s[1..]);
        var rest := Insert(x, s[1..]);
        forall j | 0 < j < |t| ensures Le(t[0], t[j]) {
          assert t[j] == rest[j - 1];
          assert rest[j - 1] in multiset(rest);
          if t[j] != x {
            assert t[j] in s[1..];
          }
        }
      }
    }
  }

  lemma {:induction false} SortSorted(s: seq<string>)
    ensures Sorted(Sort(s))
  {
    if s != [] {
      SortSorted(s[1..]);
      InsertSorted(s[0], Sort(s[1..]));
    }
  }

  /** A sorted sequence is determined by what is in it. */
  lemma {:induction false} SortedIsCanonical(a: seq<string>, b: seq<string>)
    requires Sorted(a) && Sorted(b) && multiset(a) == multiset(b)
    ensures a == b
    decreases |a|
  {
    assert |multiset(a)| == |a| && |multiset(b)| == |b|;
    if a != [] {
      SameLeast(a, b);
      assert a == [a[0]] + a[1..] && b == [b[0]] + b[1..];
      assert multiset(a[1..]) == multiset(a) - multiset{a[0]};
      assert multiset(b[1..]) == multiset(b) - multiset{b[0]};
      SortedIsCanonical(a[1..], b[1..]);
    }
  }

  lemma SameLeast(a: seq<string>, b: seq<string>)
    requires Sorted(a) && Sorted(b) && multiset(a) == multiset(b) && a != [] && b != []
    ensures a[0] == b[0]
  {
    assert a[0] in multiset(a) && b[0] in multiset(b);
    assert a[0] in b && b[0] in a;
    var i :| 0 <= i < |b| && b[i] == a[0];
    var j :| 0 <= j < |a| && a[j] == b[0];
    if i > 0 && j > 0 {
      LeAntisymmetric(a[0], b[0]);
    }
  }

  /** Sorting forgets the order and nothing else. */
  lemma SortEqualIff(a: seq<string>, b: seq<string>)
    ensures Sort(a) == Sort(b) <==> multiset(a) == multiset(b)
  {
    SortSorted(a);
    SortSorted(b);
    if multiset(a) == multiset(b) {
      SortedIsCanonical(Sort(a), Sort(b));
    }
  }

  // ----- trim -----

  function TrimStart(s: string): (t: string)
    ensures t == [] || !Text.IsSpace(t[0])
  {
    if s != [] && Text.IsSpace(s[0]) then TrimStart(s[1..]) else s
  }

  function TrimEnd(s: string): (t: string)
    ensures t <= s
    ensures t == [] || !Text.IsSpace(t[|t| - 1])
  {
    if s != [] && Text.IsSpace(s[|s| - 1]) then TrimEnd(s[..|s| - 1]) else s
  }

  /** `trim`, or `strip`. */
  function Trim(s: string): string {
    TrimEnd(TrimStart(s))
  }

  /** No space at either end. */
  predicate Trimmed(s: string) {
    s == [] || (!Text.IsSpace(s[0]) && !Text.IsSpace(s[|s| - 1]))
  }

  lemma TrimIsTrimmed(s: string)
    ensures Trimmed(Trim(s))
  {
    var t := TrimStart(s);
    assert TrimEnd(t) <= t;
  }

  lemma TrimOfTrimmed(s: string)
    requires Trimmed(s)
    ensures Trim(s) == s
  {
  }

  /** `Trim` takes off white space at both ends, and nothing else. */
  lemma TrimIs(s: string)
    ensures exists i: nat, j: nat :: IsTrimAt(s, i, j) && Trim(s) == s[i..j]
  {
    var t, u := TrimStart(s), Trim(s);
    StartIs(s);
    EndIs(t);
    TrimIsTrimmed(s);
    assert u == TrimEnd(t) && u <= t;
    hide TrimStart, TrimEnd, Trim, MadeOf;
    var i := |s| - |t|;
    var j := i + |u|;
    assert t == s[i..] && u == t[..|u|] && t[|u|..] == s[j..] && s[i..j] == u;
    if u != "" {
      SpaceSpelled(u[0]);
      SpaceSpelled(u[|u| - 1]);
      assert s[i] == u[0] && s[j - 1] == u[|u| - 1];
    }
    assert IsTrimAt(s, i, j);
  }

  /** Between the two positions stands the text without the white space around it. */
  predicate IsTrimAt(s: string, i: nat, j: nat) {
    && i <= j <= |s| && MadeOf(s[..i], SPACES) && MadeOf(s[j..], SPACES)
    && (i < j ==> s[i] !in SPACES && s[j - 1] !in SPACES)
  }

  lemma {:induction false} StartIs(s: string)
    ensures var n := |s| - |TrimStart(s)|; 0 <= n <= |s| && TrimStart(s) == s[n..] && MadeOf(s[..n], SPACES)
  {
    hide Text.IsSpace;
    if s != [] && Text.IsSpace(s[0]) {
      StartIs(s[1..]);
      SpaceSpelled(s[0]);
      var n := |s| - |TrimStart(s)|;
      MadeOfMore(s[1..][..n - 1], s[0]);
      assert s[..n] == [s[0]] + s[1..][..n - 1];
    }
  }

  lemma MadeOfMore(s: string, c: char)
    requires MadeOf(s, SPACES) && c in SPACES
    ensures MadeOf([c] + s, SPACES) && MadeOf(s + [c], SPACES)
  {
  }

  lemma {:induction false} EndIs(s: string)
    ensures MadeOf(s[|TrimEnd(s)|..], SPACES)
    decreases |s|
  {
    hide Text.IsSpace;
    if s != [] && Text.IsSpace(s[|s| - 1]) {
      var t := s[..|s| - 1];
      EndIs(t);
      SpaceSpelled(s[|s| - 1]);
      hide MadeOf;
      MadeOfMore(t[|TrimEnd(t)|..], s[|s| - 1]);
      assert s[|TrimEnd(s)|..] == t[|TrimEnd(t)|..] + [s[|s| - 1]];
    }
  }
}
