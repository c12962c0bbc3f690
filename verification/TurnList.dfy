/** The turns of a conversation: visible steps, without a model step that the check-in after it repeats,
    and without the turns at the end that restate the question the run is parked on. */
module TurnList {
  import opened Strings
  import Text
  import opened Spelling
  import opened Wrappers

  datatype Kind = Model | CheckIn | Other

  datatype Step = Step(kind: Kind, hidden: bool, detail: Option<string>, excerpt: Option<string>)

  function OrEmpty(s: Option<string>): string {
    if s.Some? then s.value else ""
  }

  /** `replace(/\s+/g, ' ')`. */
  function Collapse(s: string): string {
    if s == [] then []
    else if !Text.IsSpace(s[0]) then [s[0]] + Collapse(s[1..])
    else if |s| > 1 && Text.IsSpace(s[1]) then Collapse(s[1..])
    else [' '] + Collapse(s[1..])
  }

  function Norm(s: string): string {
    Trim(Collapse(s))
  }

  function NormOf(t: Step): string {
    Norm(OrEmpty(t.detail) + " " + OrEmpty(t.excerpt))
  }

  function Head(t: Step): string {
    if |NormOf(t)| <= 60 then NormOf(t) else NormOf(t)[..60]
  }

  // ----- the normal form, spelled out -----

  /** The words of a text: its longest runs without white space. */
  function Words(s: string): (words: seq<string>)
    ensures s != [] && !White(s[0]) ==> words != []
  {
    if s == [] then []
    else if White(s[0]) then Words(s[1..])
    else if |s| == 1 || White(s[1]) then [[s[0]]] + Words(s[1..])
    else Extend(s[0], Words(s[1..]))
  }

  function Extend(c: char, words: seq<string>): (extended: seq<string>)
    requires words != []
    ensures extended != []
  {
    [[c] + words[0]] + words[1..]
  }

  lemma {:induction false} NoWords(s: string)
    ensures s != [] && Words(s) == [] ==> White(s[|s| - 1])
    ensures s == [] ==> Words(s) == []
  {
    hide White;
    if |s| > 1 {
      NoWords(s[1..]);
    }
  }

  function Lead(s: string): string {
    if s != [] && White(s[0]) then " " else ""
  }

  function Trail(s: string): string {
    if s != [] && Words(s) != [] && White(s[|s| - 1]) then " " else ""
  }

  /** A run of white space is one space in front of the words, one behind them, and one between two. */
  lemma {:induction false} CollapseIs(s: string)
    ensures Collapse(s) == Lead(s) + Join(Words(s), ' ') + Trail(s)
    decreases |s|
  {
    if s != [] {
      CollapseIs(s[1..]);
      hide *;
      if White(s[0]) {
        CollapseSpace(s);
      } else if |s| == 1 || White(s[1]) {
        CollapseWordEnd(s);
      } else {
        CollapseInWord(s);
      }
    }
  }

  lemma IsWhite(c: char)
    ensures White(c) <==> Text.IsSpace(c)
  {
    SpaceSpelled(c);
  }

  /** What the functions do at white space. */
  lemma AtSpace(s: string)
    requires s != [] && White(s[0])
    ensures Lead(s) == " " && Words(s) == Words(s[1..]) && Trail(s) == Trail(s[1..])
    ensures if |s| > 1 && White(s[1]) then Collapse(s) == Collapse(s[1..]) && Lead(s[1..]) == " "
      else Collapse(s) == " " + Collapse(s[1..]) && Lead(s[1..]) == ""
  {
    hide White, Text.IsSpace;
    IsWhite(s[0]);
    NoWords(s[1..]);
    if |s| > 1 {
      IsWhite(s[1]);
      assert s[1..][|s| - 2] == s[|s| - 1];
    }
  }

  lemma CollapseSpace(s: string)
    requires s != [] && White(s[0]) && Collapse(s[1..]) == Lead(s[1..]) + Join(Words(s[1..]), ' ') + Trail(s[1..])
    ensures Collapse(s) == Lead(s) + Join(Words(s), ' ') + Trail(s)
  {
    hide *;
    AtSpace(s);
    Regroup(" ", "", Join(Words(s), ' '), Trail(s));
  }

  /** What they do at a character that is no white space. */
  lemma AtWord(s: string)
    requires s != [] && !White(s[0])
    ensures Lead(s) == "" && Collapse(s) == [s[0]] + Collapse(s[1..])
    ensures |s| > 1 && !White(s[1]) ==> Words(s[1..]) != [] && Words(s) == Extend(s[0], Words(s[1..]))
    ensures |s| == 1 || White(s[1]) ==> Words(s) == [[s[0]]] + Words(s[1..])
  {
    hide White, Text.IsSpace;
    IsWhite(s[0]);
  }

  lemma TrailAtWord(s: string)
    requires s != [] && !White(s[0])
    ensures |s| == 1 ==> Trail(s) == ""
    ensures |s| > 1 ==> Trail(s) == if Words(s[1..]) == [] then " " else Trail(s[1..])
    ensures Words(s[1..]) == [] ==> Trail(s[1..]) == ""
  {
    hide White;
    NoWords(s[1..]);
    if |s| > 1 {
      assert s[1..][|s| - 2] == s[|s| - 1];
    }
  }

  lemma CollapseWordEnd(s: string)
    requires s != [] && !White(s[0]) && (|s| == 1 || White(s[1]))
    requires Collapse(s[1..]) == Lead(s[1..]) + Join(Words(s[1..]), ' ') + Trail(s[1..])
    ensures Collapse(s) == Lead(s) + Join(Words(s), ' ') + Trail(s)
  {
    hide *;
    AtWord(s);
    TrailAtWord(s);
    JoinCons([s[0]], Words(s[1..]));
    NothingJoined();
    if |s| == 1 {
      NothingBehind(s);
    } else {
      SomeLead(s[1..]);
    }
    Regroup([s[0]], " ", Join(Words(s[1..]), ' '), Trail(s[1..]));
  }

  lemma NothingBehind(s: string)
    requires |s| == 1
    ensures s[1..] == "" && Words(s[1..]) == [] && Collapse(s[1..]) == ""
  {
  }

  lemma SomeLead(s: string)
    requires s != [] && White(s[0])
    ensures Lead(s) == " "
  {
  }

  lemma Regroup(a: string, b: string, c: string, d: string)
    ensures a + (b + c + d) == a + b + c + d == "" + (a + b + c) + d
    ensures a + (b + "" + "") == "" + a + b && a + "" == "" + a + "" == a
    ensures a + ("" + c + d) == a + c + d == "" + (a + c) + d
  {
  }

  lemma CollapseInWord(s: string)
    requires |s| > 1 && !White(s[0]) && !White(s[1])
    requires Collapse(s[1..]) == Lead(s[1..]) + Join(Words(s[1..]), ' ') + Trail(s[1..])
    ensures Collapse(s) == Lead(s) + Join(Words(s), ' ') + Trail(s)
  {
    hide *;
    AtWord(s);
    TrailAtWord(s);
    JoinInWord(s);
    NoLead(s[1..]);
    Regroup([s[0]], "", Join(Words(s[1..]), ' '), Trail(s[1..]));
  }

  lemma JoinInWord(s: string)
    requires |s| > 1 && !White(s[0]) && !White(s[1])
    ensures Words(s[1..]) != [] && Join(Words(s), ' ') == [s[0]] + Join(Words(s[1..]), ' ')
  {
    AtWord(s);
    JoinExtend(s[0], Words(s[1..]));
    hide Join, White;
  }

  lemma NoLead(s: string)
    requires s != [] && !White(s[0])
    ensures Lead(s) == ""
  {
  }

  lemma JoinCons(word: string, words: seq<string>)
    ensures Join([word] + words, ' ') == if words == [] then word else word + " " + Join(words, ' ')
  {
    assert ([word] + words)[1..] == words;
  }

  lemma JoinExtend(c: char, words: seq<string>)
    requires words != []
    ensures Join(Extend(c, words), ' ') == [c] + Join(words, ' ')
  {
    assert ([[c] + words[0]] + words[1..])[1..] == words[1..];
  }

  lemma {:induction false} WordsAreWords(s: string)
    ensures forall i :: 0 <= i < |Words(s)| ==> Words(s)[i] != "" && FreeOf(Words(s)[i], SPACES)
  {
    if s != [] {
      WordsAreWords(s[1..]);
    }
  }

  lemma {:induction false} JoinedEnds(words: seq<string>)
    requires words != [] && forall i :: 0 <= i < |words| ==> words[i] != "" && FreeOf(words[i], SPACES)
    ensures var t := Join(words, ' '); t != "" && !White(t[0]) && !White(t[|t| - 1])
    decreases |words|
  {
    if |words| > 1 {
      JoinedEnds(words[1..]);
    }
  }

  lemma TrimAround(before: string, t: string, after: string)
    requires before in {"", " "} && after in {"", " "} && (t == "" ==> after == "")
    requires t != "" ==> !White(t[0]) && !White(t[|t| - 1])
    ensures Trim(before + t + after) == t
  {
    hide Text.IsSpace, White;
    IsWhite(' ');
    SpaceIsWhite();
    if t != "" {
      IsWhite(t[0]);
      IsWhite(t[|t| - 1]);
      assert TrimStart(t + after) == t + after;
      assert before == " " ==> (before + t + after)[1..] == t + after;
      assert before == "" ==> before + t + after == t + after;
      assert after == " " ==> (t + after)[..|t|] == t;
      assert TrimEnd(t) == t;
    } else {
      assert before + t + after == before;
      assert before == " " ==> before[1..] == "";
    }
  }

  lemma SpaceIsWhite()
    ensures White(' ')
  {
  }

  /** The normal form of a text is its words with one space between them. */
  lemma NormIs(s: string)
    ensures Norm(s) == Join(Words(s), ' ')
  {
    hide Collapse, Words, Join, Trim;
    CollapseIs(s);
    WordsAreWords(s);
    var t := Join(Words(s), ' ');
    if Words(s) == [] {
      NothingJoined();
    } else {
      JoinedEnds(Words(s));
    }
    TrimAround(Lead(s), t, Trail(s));
  }

  lemma NothingJoined()
    ensures Join([], ' ') == ""
  {
  }

  predicate OccursAt(s: string, part: string, i: nat) {
    i + |part| <= |s| && s[i..i + |part|] == part
  }

  /** `s.includes(part)`. */
  predicate Includes(s: string, part: string) {
    exists i: nat :: i <= |s| && OccursAt(s, part, i)
  }

  /** The part occurs when the text is something, the part, and something. */
  lemma IncludesIff(s: string, part: string)
    ensures Includes(s, part) <==> exists before, after :: IsAround(s, before, part, after)
  {
    if i: nat :| i <= |s| && OccursAt(s, part, i) {
      assert s == s[..i] + s[i..i + |part|] + s[i + |part|..];
      assert IsAround(s, s[..i], part, s[i + |part|..]);
    }
    if before, after :| IsAround(s, before, part, after) {
      assert OccursAt(s, part, |before|);
    }
  }

  predicate IsAround(s: string, before: string, part: string, after: string) {
    s == before + part + after
  }

  lemma IncludesTransitive(a: string, b: string, c: string)
    requires Includes(a, b) && Includes(b, c)
    ensures Includes(a, c)
  {
    var i: nat :| i <= |a| && OccursAt(a, b, i);
    var j: nat :| j <= |b| && OccursAt(b, c, j);
    forall k | 0 <= k < |c| ensures a[i + j + k] == c[k] {
      assert a[i + (j + k)] == a[i..i + |b|][j + k];
      assert b[j + k] == b[j..j + |c|][k];
    }
    assert a[i + j..i + j + |c|] == c;
    assert OccursAt(a, c, i + j);
  }

  // ----- what a step opens with, spelled out -----

  /** Detail and excerpt of a step, as words with one space between them. */
  function Spoken(t: Step): string {
    Join(Words((if t.detail.Some? then t.detail.value else "") + " " + (if t.excerpt.Some? then t.excerpt.value else "")), ' ')
  }

  /** The text has the first 60 characters of what the step says, and these are at least twelve. */
  predicate Quotes(text: string, t: Step) {
    var head := if |Spoken(t)| > 60 then Spoken(t)[..60] else Spoken(t);
    |head| >= 12 && Includes(text, head)
  }

  lemma HeadIs(t: Step)
    ensures NormOf(t) == Spoken(t) && Head(t) == if |Spoken(t)| > 60 then Spoken(t)[..60] else Spoken(t)
  {
    NormIs(OrEmpty(t.detail) + " " + OrEmpty(t.excerpt));
    hide Norm, Words, Join;
  }

  lemma QuotesIff(text: string, t: Step)
    ensures Quotes(text, t) <==> |Head(t)| >= 12 && Includes(text, Head(t))
  {
    HeadIs(t);
    hide Head, Spoken, Includes;
  }

  /** The step is one of the model, and the check-in right after it opens with what it says. */
  predicate IsSaidNext(visible: seq<Step>, i: nat) {
    && i + 1 < |visible| && visible[i].kind == Model && visible[i + 1].kind == CheckIn
    && Quotes(Spoken(visible[i + 1]), visible[i])
  }

  lemma DroppedIff(visible: seq<Step>, i: nat)
    ensures IsDropped(visible, i) <==> IsSaidNext(visible, i)
  {
    if i + 1 < |visible| {
      HeadIs(visible[i]);
      HeadIs(visible[i + 1]);
    }
    hide NormOf, Head, Spoken, Includes;
  }

  // ----- the filter -----

  predicate Repeats(t: Step, next: Step) {
    next.kind == CheckIn && t.kind == Model && |Head(t)| >= 12 && Includes(NormOf(next), Head(t))
  }

  predicate IsDropped(visible: seq<Step>, i: nat) {
    i + 1 < |visible| && Repeats(visible[i], visible[i + 1])
  }

  function Visible(steps: seq<Step>): seq<Step> {
    if steps == [] then [] else (if steps[0].hidden then [] else [steps[0]]) + Visible(steps[1..])
  }

  /** The steps that are not hidden, in order. */
  ghost predicate AreVisible(steps: seq<Step>, visible: seq<Step>) {
    exists at: seq<nat> :: Increasing(at) && (forall i: nat :: i in at <==> i < |steps| && !steps[i].hidden) && AreAt(steps, at, visible)
  }

  lemma {:induction false} VisibleLast(steps: seq<Step>)
    requires steps != []
    ensures var n := |steps| - 1; Visible(steps) == Visible(steps[..n]) + if steps[n].hidden then [] else [steps[n]]
    decreases |steps|
  {
    var n := |steps| - 1;
    if n == 0 {
      assert steps[..0] == [] && steps[1..] == [];
    } else {
      VisibleLast(steps[1..]);
      assert steps[1..][..n - 1] == steps[..n][1..];
    }
  }

  lemma {:induction false} VisibleAre(steps: seq<Step>) returns (at: seq<nat>)
    ensures Increasing(at) && (forall i: nat :: i in at <==> i < |steps| && !steps[i].hidden) && AreAt(steps, at, Visible(steps))
    decreases |steps|
  {
    if steps == [] {
      at := [];
    } else {
      var n := |steps| - 1;
      at := VisibleAre(steps[..n]);
      VisibleLast(steps);
      hide Visible;
      assert forall k :: 0 <= k < |at| ==> at[k] in at;
      assert forall i :: 0 <= i < n ==> steps[..n][i] == steps[i];
      if !steps[n].hidden {
        at := at + [n];
      }
    }
  }

  /** The indices of the visible steps the filter keeps. */
  function Kept(visible: seq<Step>, n: nat): (indices: seq<nat>)
    requires n <= |visible|
    ensures forall k :: 0 <= k < |indices| ==> indices[k] < n
  {
    if n == 0 then [] else Kept(visible, n - 1) + if IsDropped(visible, n - 1) then [] else [n - 1 as nat]
  }

  function At(visible: seq<Step>, indices: seq<nat>): (all: seq<Step>)
    requires forall k :: 0 <= k < |indices| ==> indices[k] < |visible|
    ensures |all| == |indices|
  {
    seq(|indices|, k requires 0 <= k < |indices| => visible[indices[k]])
  }

  ghost predicate Increasing(indices: seq<nat>) {
    forall j, k :: 0 <= j < k < |indices| ==> indices[j] < indices[k]
  }

  lemma {:induction false} KeptIsOrdered(visible: seq<Step>, n: nat)
    requires n <= |visible|
    ensures Increasing(Kept(visible, n))
    ensures forall i: nat :: i in Kept(visible, n) <==> i < n && !IsSaidNext(visible, i)
  {
    hide IsDropped, IsSaidNext;
    if n > 0 {
      KeptIsOrdered(visible, n - 1);
      DroppedIff(visible, n - 1);
      Appended(visible, Kept(visible, n - 1), n - 1);
    }
  }

  lemma Appended(visible: seq<Step>, before: seq<nat>, last: nat)
    requires Increasing(before) && forall i: nat :: i in before <==> i < last && !IsSaidNext(visible, i)
    ensures var after := before + if IsSaidNext(visible, last) then [] else [last];
      && Increasing(after)
      && (forall i: nat :: i in after <==> i < last + 1 && !IsSaidNext(visible, i))
  {
    hide IsSaidNext;
    assert forall k :: 0 <= k < |before| ==> before[k] in before;
  }

  // ----- the parked trim -----

  ghost predicate IsCut(all: seq<Step>, question: string, end: nat) {
    && end <= |all|
    && (forall k :: end <= k < |all| ==> Quotes(question, all[k]))
    && (end > 0 ==> !Quotes(question, all[end - 1]))
  }

  /** The trim removes the longest run at the end that restates the question. */
  method TrimParked(all: seq<Step>, question: string) returns (end: nat)
    ensures IsCut(all, question, end)
  {
    hide Head, Includes, Quotes, Spoken;
    end := |all|;
    while end > 0
      invariant end <= |all|
      invariant forall k :: end <= k < |all| ==> Quotes(question, all[k])
    {
      var body := Head(all[end - 1]);
      QuotesIff(question, all[end - 1]);
      if |body| < 12 || !Includes(question, body) {
        break;
      }
      end := end - 1;
    }
  }

  /** The turns as indices into the visible steps: all that the filter keeps, or while the run is parked
      on a question, those before the cut. */
  ghost predicate AreTurns(visible: seq<Step>, question: Option<string>, turns: seq<nat>) {
    var kept := Kept(visible, |visible|);
    && turns <= kept
    && (question.None? ==> turns == kept)
    && (question.Some? ==> IsCut(At(visible, kept), Norm(question.value), |turns|))
  }

  ghost predicate IsTurnList(steps: seq<Step>, question: Option<string>, turns: seq<Step>) {
    exists visible, indices :: AreVisible(steps, visible) && AreTurns(visible, question, indices) && AreAt(visible, indices, turns)
  }

  ghost predicate AreAt(visible: seq<Step>, indices: seq<nat>, turns: seq<Step>) {
    |turns| == |indices| && forall k :: 0 <= k < |indices| ==> indices[k] < |visible| && turns[k] == visible[indices[k]]
  }

  /** `question` is the pending question of a run that awaits a human. */
  method Turns(steps: seq<Step>, question: Option<string>) returns (turns: seq<Step>)
    ensures IsTurnList(steps, question, turns)
  {
    ghost var at := VisibleAre(steps);
    hide Kept, IsCut, Visible, Norm;
    var visible := Visible(steps);
    var kept := Kept(visible, |visible|);
    turns := At(visible, kept);
    ghost var indices := kept;
    if question.Some? {
      var end := TrimParked(turns, Norm(question.value));
      CutBound(turns, Norm(question.value), end);
      turns, indices := turns[..end], kept[..end];
    }
    assert AreVisible(steps, visible);
    assert AreTurns(visible, question, indices) && AreAt(visible, indices, turns);
  }

  lemma CutBound(all: seq<Step>, question: string, end: nat)
    requires IsCut(all, question, end)
    ensures end <= |all|
  {
  }

  // ----- nothing goes unsaid -----

  /** Every visible step is a turn, or what it opens with is said elsewhere: in the check-in after it,
      which is a turn, or in the question; or that check-in is longer than its head, and only its head is
      in the question. */
  lemma NothingUnsaid(visible: seq<Step>, question: Option<string>, turns: seq<nat>, i: nat)
    requires AreTurns(visible, question, turns) && i < |visible|
    ensures
      || i in turns
      || (i + 1 in turns && Includes(NormOf(visible[i + 1]), Head(visible[i])))
      || (question.Some? && Includes(Norm(question.value), Head(visible[i])))
      || (question.Some? && i + 1 < |visible| && |NormOf(visible[i + 1])| > 60
          && Includes(Norm(question.value), Head(visible[i + 1])))
  {
    hide *;
    KeptIsOrdered(visible, |visible|);
    KeptPrefix(visible, question, turns);
    if IsSaidNext(visible, i) {
      SaidNext(visible, i);
      if i + 1 !in turns {
        TrimmedIsAsked(visible, question, turns, i + 1);
        QuotedHead(Norm(question.value), visible[i + 1]);
        if |NormOf(visible[i + 1])| <= 60 {
          ShortHead(visible[i + 1]);
          IncludesTransitive(Norm(question.value), NormOf(visible[i + 1]), Head(visible[i]));
        }
      }
    } else if i !in turns {
      TrimmedIsAsked(visible, question, turns, i);
      QuotedHead(Norm(question.value), visible[i]);
    }
  }

  lemma KeptPrefix(visible: seq<Step>, question: Option<string>, turns: seq<nat>)
    requires AreTurns(visible, question, turns)
    ensures turns <= Kept(visible, |visible|)
  {
  }

  lemma QuotedHead(text: string, t: Step)
    requires Quotes(text, t)
    ensures Includes(text, Head(t))
  {
    HeadIs(t);
    hide Head, Spoken, Includes;
  }

  lemma ShortHead(t: Step)
    requires |NormOf(t)| <= 60
    ensures Head(t) == NormOf(t)
  {
    hide NormOf;
  }

  /** A step that is said next is said in a check-in, which is itself not said next. */
  lemma SaidNext(visible: seq<Step>, i: nat)
    requires IsSaidNext(visible, i)
    ensures i + 1 < |visible| && !IsSaidNext(visible, i + 1) && Includes(NormOf(visible[i + 1]), Head(visible[i]))
  {
    HeadIs(visible[i]);
    HeadIs(visible[i + 1]);
    hide NormOf, Head, Spoken, Includes;
  }

  lemma TrimmedIsAsked(visible: seq<Step>, question: Option<string>, turns: seq<nat>, i: nat)
    requires AreTurns(visible, question, turns) && i in Kept(visible, |visible|) && i !in turns
    ensures i < |visible| && question.Some? && Quotes(Norm(question.value), visible[i])
  {
    hide Quotes, Norm;
    var kept := Kept(visible, |visible|);
    var k :| 0 <= k < |kept| && kept[k] == i;
    assert forall q :: 0 <= q < |turns| ==> turns[q] == kept[q];
    assert At(visible, kept)[k] == visible[i];
  }

  /** The last turn of a parked run, if there is one, is news. */
  lemma LastTurnIsNews(visible: seq<Step>, question: string, turns: seq<nat>)
    requires AreTurns(visible, Some(question), turns) && turns != []
    ensures turns[|turns| - 1] < |visible| && !Quotes(Norm(question), visible[turns[|turns| - 1]])
  {
    hide Quotes, Norm;
    var kept := Kept(visible, |visible|);
    assert kept[|turns| - 1] == turns[|turns| - 1];
    assert At(visible, kept)[|turns| - 1] == visible[turns[|turns| - 1]];
  }
}
