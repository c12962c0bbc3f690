/** What every conversion keeps: the span count, the order of root and chat, the
    identity of the spans, the token totals, the tool signature and the presence of
    a reference. */
module TranscriptLaws {
  import opened Text
  import opened Decimal
  import opened SecretPatterns
  import opened KeyCleaning
  import opened AssignmentCleaning
  import opened Scrubber
  import opened Truncation
  import opened Payload
  import opened Transcript
  import opened Wrappers

  // ----- counting and order -----

  lemma RecordSpanCount(session: Session, r: Record, steps: nat, tools: nat)
    ensures |RecordSpans(session, r, steps, tools)| ==
            (if IsStep(r) then 1 else 0) + (if IsTurn(r) then |ToolUses(r.content.blocks)| else 0)
  {
    hide StepSpan, HasText, AsText, ToolUses;
    if IsTurn(r) {
      ToolUsesAreToolUses(r.content.blocks);
    }
  }

  lemma {:induction false} BodyCount(session: Session, records: seq<Record>)
    ensures |BodySpans(session, records)| == |Steps(records)| + |ToolCalls(records)|
    decreases |records|
  {
    hide RecordSpans, IsStep;
    if records != [] {
      BodyCount(session, Init(records));
      RecordSpanCount(session, Last(records), |Steps(Init(records))|, |ToolCalls(Init(records))|);
    }
  }

  /** Root and chat, and one span per text-producing call and per tool call: nothing is collapsed. */
  lemma SpanCount(records: seq<Record>, traceId: string)
    ensures var spans := RawSpans(records, traceId);
      && |spans| == 2 + |Steps(records)| + |ToolCalls(records)|
      && spans[0].name == "agent.root" && spans[0].parentId == None
      && spans[|spans| - 1].name == "chat"
      && (forall i :: 0 < i < |spans| ==> spans[i].parentId == Some(spans[0].spanId))
  {
    var session := SessionOf(records, traceId);
    BodyCount(session, records);
    BodyParents(session, records);
    hide BodySpans, Safe, SessionOf, Steps, ToolCalls, ModelsSeen, SumInput, SumOutput, LastTimestamp, FinalText;
  }

  lemma {:induction false} BodyParents(session: Session, records: seq<Record>)
    ensures forall i :: 0 <= i < |BodySpans(session, records)| ==>
      BodySpans(session, records)[i].parentId == Some(RootId(session.traceId))
    decreases |records|
  {
    hide Safe, Digits, HasText, AsText;
    if records != [] {
      BodyParents(session, Init(records));
      RecordParents(session, Last(records), |Steps(Init(records))|, |ToolCalls(Init(records))|);
      hide RecordSpans;
    }
  }

  lemma RecordParents(session: Session, r: Record, steps: nat, tools: nat)
    ensures forall i :: 0 <= i < |RecordSpans(session, r, steps, tools)| ==>
      RecordSpans(session, r, steps, tools)[i].parentId == Some(RootId(session.traceId))
  {
    hide Safe, Digits, HasText, AsText, ToolUses;
    if IsTurn(r) {
      ToolUsesAreToolUses(r.content.blocks);
    }
  }

  // ----- identity -----

  /** What a span id between root and chat is made from. */
  datatype Key = StepKey(k: nat) | ToolKey(k: nat)

  function KeyId(traceId: string, key: Key): string {
    match key
    case StepKey(k) => StepId(traceId, k)
    case ToolKey(k) => ToolId(traceId, k)
  }

  lemma KeyIdInjective(traceId: string, a: Key, b: Key)
    requires KeyId(traceId, a) == KeyId(traceId, b)
    ensures a == b
  {
    var n := |traceId|;
    assert KeyId(traceId, a)[n + 1] == if a.StepKey? then 's' else 't';
    assert KeyId(traceId, b)[n + 1] == if b.StepKey? then 's' else 't';
    assert KeyId(traceId, a)[n + 2..] == Digits(a.k) && KeyId(traceId, b)[n + 2..] == Digits(b.k);
    ValueOfDigits(a.k);
    ValueOfDigits(b.k);
  }

  function RecordKeys(r: Record, steps: nat, tools: nat): seq<Key> {
    (if IsStep(r) then [StepKey(steps + 1)] else []) +
    if IsTurn(r) then seq(|ToolUses(r.content.blocks)|, i requires 0 <= i < |ToolUses(r.content.blocks)| => ToolKey(tools + 1 + i)) else []
  }

  function BodyKeys(records: seq<Record>): seq<Key> {
    if records == [] then []
    else BodyKeys(Init(records)) + RecordKeys(Last(records), |Steps(Init(records))|, |ToolCalls(Init(records))|)
  }

  ghost predicate NoDuplicates<T>(s: seq<T>) {
    forall i, j :: 0 <= i < j < |s| ==> s[i] != s[j]
  }

  lemma RecordIds(session: Session, r: Record, steps: nat, tools: nat)
    ensures var spans, keys := RecordSpans(session, r, steps, tools), RecordKeys(r, steps, tools);
      |spans| == |keys| && forall i :: 0 <= i < |spans| ==> spans[i].spanId == KeyId(session.traceId, keys[i])
  {
    hide Safe, Digits, HasText, AsText, ToolUses;
    if IsTurn(r) {
      ToolUsesAreToolUses(r.content.blocks);
    }
  }

  lemma {:induction false} BodyIds(session: Session, records: seq<Record>)
    ensures var spans, keys := BodySpans(session, records), BodyKeys(records);
      |spans| == |keys| && forall i :: 0 <= i < |spans| ==> spans[i].spanId == KeyId(session.traceId, keys[i])
    decreases |records|
  {
    hide RecordSpans, RecordKeys, KeyId;
    if records != [] {
      BodyIds(session, Init(records));
      RecordIds(session, Last(records), |Steps(Init(records))|, |ToolCalls(Init(records))|);
    }
  }

  predicate KeyUpTo(key: Key, steps: nat, tools: nat) {
    match key
    case StepKey(k) => 0 < k <= steps
    case ToolKey(k) => 0 < k <= tools
  }

  lemma RecordKeysAreNew(r: Record, steps: nat, tools: nat)
    ensures var keys := RecordKeys(r, steps, tools);
      && NoDuplicates(keys)
      && forall i :: 0 <= i < |keys| ==>
           && !KeyUpTo(keys[i], steps, tools)
           && KeyUpTo(keys[i], steps + (if IsStep(r) then 1 else 0),
                      tools + (if IsTurn(r) then |ToolUses(r.content.blocks)| else 0))
  {
    hide HasText, AsText, ToolUses;
  }

  lemma {:induction false} BodyKeysDistinct(records: seq<Record>)
    ensures NoDuplicates(BodyKeys(records))
    ensures forall i :: 0 <= i < |BodyKeys(records)| ==> KeyUpTo(BodyKeys(records)[i], |Steps(records)|, |ToolCalls(records)|)
    decreases |records|
  {
    hide RecordKeys, IsStep, ToolUses;
    if records != [] {
      BodyKeysDistinct(Init(records));
      RecordKeysAreNew(Last(records), |Steps(Init(records))|, |ToolCalls(Init(records))|);
    }
  }

  function Ids(spans: seq<Span>): (ids: seq<string>)
    ensures |ids| == |spans|
  {
    seq(|spans|, i requires 0 <= i < |spans| => spans[i].spanId)
  }

  lemma EndsDiffer(traceId: string, key: Key)
    ensures RootId(traceId) != ChatId(traceId)
    ensures KeyId(traceId, key) != RootId(traceId) && KeyId(traceId, key) != ChatId(traceId)
  {
    var n := |traceId|;
    assert RootId(traceId)[n + 1] == 'r' && ChatId(traceId)[n + 1] == 'c';
    assert KeyId(traceId, key)[n + 1] in {'s', 't'};
  }

  lemma RawIdShape(records: seq<Record>, traceId: string)
    ensures var ids, keys := Ids(RawSpans(records, traceId)), BodyKeys(records); var n := |keys|;
      && |ids| == n + 2 && ids[0] == RootId(traceId) && ids[n + 1] == ChatId(traceId)
      && forall i :: 1 <= i <= n ==> ids[i] == KeyId(traceId, keys[i - 1])
  {
    var session := SessionOf(records, traceId);
    BodyIds(session, records);
    hide BodySpans, BodyKeys, KeyId, Safe, FirstTimestamp, Results, Prompt, Steps, ToolCalls, ModelsSeen, SumInput, SumOutput, LastTimestamp, FinalText;
  }

  /** Before the second scrub no two spans of a session share an id, whatever the trace id. */
  lemma RawIdsDistinct(records: seq<Record>, traceId: string)
    ensures NoDuplicates(Ids(RawSpans(records, traceId)))
  {
    var keys := BodyKeys(records);
    var ids := Ids(RawSpans(records, traceId));
    RawIdShape(records, traceId);
    BodyKeysDistinct(records);
    hide RawSpans, BodyKeys, KeyId, RootId, ChatId, Ids;
    forall i, j | 0 <= i < j < |ids| ensures ids[i] != ids[j] {
      if 1 <= i {
        EndsDiffer(traceId, keys[i - 1]);
        if j <= |keys| && ids[i] == ids[j] {
          KeyIdInjective(traceId, keys[i - 1], keys[j - 1]);
        }
      } else if j <= |keys| {
        EndsDiffer(traceId, keys[j - 1]);
      } else {
        EndsDiffer(traceId, StepKey(0));
      }
    }
  }

  // ----- tokens, reference, signature -----

  function StepInput(steps: seq<Record>): nat {
    if steps == [] then 0 else StepInput(Init(steps)) + Last(steps).inputTokens
  }

  function StepOutput(steps: seq<Record>): nat {
    if steps == [] then 0 else StepOutput(Init(steps)) + Last(steps).outputTokens
  }

  /** The input tokens that the spans of a list report. */
  function UsageInput(spans: seq<Span>): nat {
    if spans == [] then 0
    else UsageInput(Init(spans)) + if Last(spans).usage.Some? then Last(spans).usage.value.input else 0
  }

  function UsageOutput(spans: seq<Span>): nat {
    if spans == [] then 0
    else UsageOutput(Init(spans)) + if Last(spans).usage.Some? then Last(spans).usage.value.output else 0
  }

  lemma {:induction false} UsageAppend(a: seq<Span>, b: seq<Span>)
    ensures UsageInput(a + b) == UsageInput(a) + UsageInput(b)
    ensures UsageOutput(a + b) == UsageOutput(a) + UsageOutput(b)
    decreases |b|
  {
    if b == [] {
      assert a + b == a;
    } else {
      assert Init(a + b) == a + Init(b);
      UsageAppend(a, Init(b));
    }
  }

  lemma {:induction false} NoUsage(spans: seq<Span>)
    requires forall i :: 0 <= i < |spans| ==> spans[i].usage == None
    ensures UsageInput(spans) == 0 && UsageOutput(spans) == 0
    decreases |spans|
  {
    if spans != [] {
      NoUsage(Init(spans));
    }
  }

  lemma RecordUsage(session: Session, r: Record, steps: nat, tools: nat)
    ensures UsageInput(RecordSpans(session, r, steps, tools)) == if IsStep(r) then r.inputTokens else 0
    ensures UsageOutput(RecordSpans(session, r, steps, tools)) == if IsStep(r) then r.outputTokens else 0
  {
    hide Safe, Digits, HasText, AsText, ToolUses;
    if IsTurn(r) {
      ToolUsesAreToolUses(r.content.blocks);
      var head := if IsStep(r) then [StepSpan(session, r, steps + 1)] else [];
      var calls := ToolSpans(session, r, ToolUses(r.content.blocks), tools + 1);
      NoUsage(calls);
      UsageAppend(head, calls);
      assert Init([StepSpan(session, r, steps + 1)]) == [];
    }
  }

  /** Between root and chat only the model calls report tokens, each its own. */
  lemma {:induction false} BodyUsage(session: Session, records: seq<Record>)
    ensures UsageInput(BodySpans(session, records)) == StepInput(Steps(records))
    ensures UsageOutput(BodySpans(session, records)) == StepOutput(Steps(records))
    decreases |records|
  {
    hide RecordSpans, IsStep;
    if records != [] {
      var before, r := Init(records), Last(records);
      BodyUsage(session, before);
      RecordUsage(session, r, |Steps(before)|, |ToolCalls(before)|);
      UsageAppend(BodySpans(session, before), RecordSpans(session, r, |Steps(before)|, |ToolCalls(before)|));
      if IsStep(r) {
        assert Init(Steps(before) + [r]) == Steps(before);
      } else {
        assert Steps(before) + [] == Steps(before);
      }
    }
  }

  /** What the model-call spans report adds up to at most what the chat span reports: calls
      that produced no text count in the total only. */
  lemma {:induction false} StepTokensBounded(records: seq<Record>)
    ensures StepInput(Steps(records)) <= SumInput(records)
    ensures StepOutput(Steps(records)) <= SumOutput(records)
    decreases |records|
  {
    hide HasText, AsText;
    if records != [] {
      StepTokensBounded(Init(records));
      var r := Last(records);
      if IsStep(r) {
        assert Init(Steps(Init(records)) + [r]) == Steps(Init(records));
      } else {
        assert Steps(Init(records)) + [] == Steps(Init(records));
      }
    }
  }

  /** A session has a reference exactly when some model call produced text. */
  lemma {:induction false} ReferenceIffSteps(records: seq<Record>)
    ensures HasText(FinalText(records)) <==> Steps(records) != []
    decreases |records|
  {
    hide AsText;
    if records != [] {
      ReferenceIffSteps(Init(records));
      if !IsStep(Last(records)) {
        assert Steps(records) == Steps(Init(records));
      }
    }
  }

  function FirstIndex(x: string, names: seq<string>): (i: nat)
    requires x in names
    ensures i < |names| && names[i] == x && x !in names[..i]
  {
    if x in Init(names) then
      assert forall i :: 0 <= i < |Init(names)| ==> names[..i] == Init(names)[..i];
      FirstIndex(x, Init(names))
    else
      assert names == Init(names) + [Last(names)];
      |names| - 1
  }

  /** The signature lists each tool once, in the order of its first use. */
  lemma {:induction false} SignatureIsFirstUse(names: seq<string>)
    ensures var sig := FirstUses(names);
      && NoDuplicates(sig)
      && (forall x :: x in sig <==> x in names)
      && (forall i, j :: 0 <= i < j < |sig| ==> FirstIndex(sig[i], names) < FirstIndex(sig[j], names))
    decreases |names|
  {
    if names != [] {
      var before := Init(names);
      SignatureIsFirstUse(before);
      assert names == before + [Last(names)];
      var sig := FirstUses(names);
      forall i, j | 0 <= i < j < |sig| ensures FirstIndex(sig[i], names) < FirstIndex(sig[j], names) {
        if j < |FirstUses(before)| {
          assert sig[i] in before && sig[j] in before;
        }
      }
    }
  }

  // ----- the second scrub -----

  /** A text with no white space, no capital, and no letter pair that a key could start with. */
  predicate IsInert(u: string) {
    && (forall i :: 0 <= i < |u| ==> !IsSpace(u[i]) && !IsUpper(u[i]))
    && (forall i :: 0 <= i < |u| - 1 && u[i] in {'s', 'p', 'g', 'l'} ==> u[i + 1] !in {'k', 'h', 'i'})
  }

  lemma {:induction false} InertKeyLen(prefixes: seq<string>, body: CharClass, min: nat, u: string)
    requires forall i :: 0 <= i < |prefixes| ==>
      |prefixes[i]| > 1 && prefixes[i][0] in {'s', 'p', 'g', 'l'} && prefixes[i][1] in {'k', 'h', 'i'}
    requires IsInert(u)
    ensures KeyLen(prefixes, body, min, u) == 0
    decreases |prefixes|
  {
    if prefixes != [] {
      assert forall i :: 0 <= i < |prefixes[1..]| ==> prefixes[1..][i] == prefixes[i + 1];
      InertKeyLen(prefixes[1..], body, min, u);
    }
  }

  lemma PrefixPairs(p: Pattern)
    requires p in KeyPatterns() && p.KeyShape?
    ensures forall i :: 0 <= i < |p.prefixes| ==>
      |p.prefixes[i]| > 1 && p.prefixes[i][0] in {'s', 'p', 'g', 'l'} && p.prefixes[i][1] in {'k', 'h', 'i'}
  {
  }

  lemma InertMatchLen(p: Pattern, w: bool, u: string)
    requires p in Patterns() && IsInert(u)
    ensures MatchLen(p, w, u) == 0
  {
    if p.KeyShape? {
      PrefixPairs(p);
      hide KeyLen, KeyPatterns, IsInert;
      InertKeyLen(p.prefixes, p.body, p.min, u);
    } else if p.BearerToken? && |u| >= 6 {
      hide KeyPatterns;
      assert u[6..] == [] || !In(Space, u[6..][0]);
    }
  }

  lemma {:induction false} InertIsClean(p: Pattern, w: bool, u: string)
    requires p in Patterns() && IsInert(u)
    ensures Clean(p, w, u)
    decreases |u|
  {
    hide MatchLen, Patterns;
    InertMatchLen(p, w, u);
    if u != [] {
      assert forall i :: 0 <= i < |u[1..]| ==> u[1..][i] == u[i + 1];
      InertIsClean(p, IsWord(u[0]), u[1..]);
    }
  }

  lemma ScrubOfInert(u: string)
    requires IsInert(u)
    ensures Scrub(u) == u
  {
    hide Clean, IsInert, Patterns, ScrubWith;
    forall i | 0 <= i < |Patterns()| ensures Clean(Patterns()[i], false, u) {
      InertIsClean(Patterns()[i], false, u);
    }
    CleanIsFixed(Patterns(), u);
  }

  /** A trace id as `traceIdForFile` makes it: `cc-` and hexadecimal digits. */
  predicate IsFileTraceId(traceId: string) {
    && |traceId| > 3 && traceId[..3] == "cc-"
    && forall i :: 3 <= i < |traceId| ==> IsDigit(traceId[i]) || 'a' <= traceId[i] <= 'f'
  }

  lemma FileTraceIdIsInert(traceId: string)
    requires IsFileTraceId(traceId)
    ensures IsInert(traceId + "_")
  {
    var u, n := traceId + "_", |traceId|;
    assert traceId[0] == traceId[..3][0] && traceId[1] == traceId[..3][1] && traceId[2] == traceId[..3][2];
    forall i | 0 <= i < |u| ensures !IsSpace(u[i]) && !IsUpper(u[i]) && u[i] !in {'s', 'p', 'g', 'l'} {
      assert i < n ==> u[i] == traceId[i];
    }
  }

  lemma SuffixesAreInert(digits: string)
    requires forall i :: 0 <= i < |digits| ==> IsDigit(digits[i])
    ensures IsInert("_root") && IsInert("_chat")
    ensures IsInert("_s" + digits) && IsInert("_t" + digits)
  {
  }

  lemma IdsAreInert(traceId: string, key: Key)
    requires IsInert(traceId + "_")
    ensures IsInert(RootId(traceId)) && IsInert(ChatId(traceId)) && IsInert(KeyId(traceId, key))
  {
    var digits := Digits(key.k);
    SuffixesAreInert(digits);
    hide IsInert, Digits;
    InertJoin(traceId, "_root");
    InertJoin(traceId, "_chat");
    InertJoin(traceId, "_s" + digits);
    InertJoin(traceId, "_t" + digits);
    assert traceId + ("_s" + digits) == traceId + "_s" + digits;
    assert traceId + ("_t" + digits) == traceId + "_t" + digits;
  }

  lemma InertJoin(traceId: string, suffix: string)
    requires IsInert(traceId + "_") && IsInert(suffix) && suffix != [] && suffix[0] == '_'
    ensures IsInert(traceId + suffix)
  {
    var u, v, n := traceId + suffix, traceId + "_", |traceId|;
    assert forall i :: 0 <= i <= n ==> u[i] == v[i];
    assert forall i :: n <= i < |u| ==> u[i] == suffix[i - n];
    forall i | 0 <= i < |u| - 1 && u[i] in {'s', 'p', 'g', 'l'} ensures u[i + 1] !in {'k', 'h', 'i'} {
      if i >= n {
        assert suffix[i - n + 1] == u[i + 1];
      }
    }
  }

  /** For a trace id that is inert, as those made from file names are, the second scrub leaves every span
      id alone, so the emitted ids are pairwise distinct as well. */
  lemma EmittedIdsDistinct(records: seq<Record>, traceId: string)
    requires IsInert(traceId + "_")
    ensures Ids(ScrubSpans(RawSpans(records, traceId))) == Ids(RawSpans(records, traceId))
    ensures NoDuplicates(Ids(ScrubSpans(RawSpans(records, traceId))))
  {
    var raw, keys := RawSpans(records, traceId), BodyKeys(records);
    var ids := Ids(raw);
    RawIdsDistinct(records, traceId);
    RawIdShape(records, traceId);
    hide Scrub, RawSpans, BodyKeys, RootId, ChatId, KeyId, IsInert;
    forall i | 0 <= i < |raw| ensures Scrub(ids[i]) == ids[i] {
      var key := if 1 <= i <= |keys| then keys[i - 1] else StepKey(0);
      IdsAreInert(traceId, key);
      ScrubOfInert(ids[i]);
    }
  }

  // ----- a trace id that is itself a key -----

  lemma {:induction false} NoDashNoKey(prefixes: seq<string>, body: CharClass, min: nat, u: string)
    requires '-' !in u && forall i :: 0 <= i < |prefixes| ==> '-' in prefixes[i]
    ensures KeyLen(prefixes, body, min, u) == 0
    decreases |prefixes|
  {
    if prefixes != [] {
      assert '-' in prefixes[0];
      assert forall i :: 0 <= i < |prefixes[1..]| ==> prefixes[1..][i] == prefixes[i + 1];
      NoDashNoKey(prefixes[1..], body, min, u);
    }
  }

  lemma {:induction false} NoDashIsClean(p: Pattern, w: bool, u: string)
    requires p in {OPENROUTER_KEY, ANTHROPIC_KEY, OPENAI_PROJECT_KEY, GENERIC_SK_KEY} && '-' !in u
    ensures Clean(p, w, u)
    decreases |u|
  {
    assert p.prefixes[0][2] == '-';
    NoDashNoKey(p.prefixes, p.body, p.min, u);
    hide KeyLen;
    if u != [] {
      NoDashIsClean(p, IsWord(u[0]), u[1..]);
    }
  }

  lemma {:induction false} ScrubWithSplit(a: seq<Pattern>, b: seq<Pattern>, s: string)
    ensures ScrubWith(a + b, s) == ScrubWith(b, ScrubWith(a, s))
    decreases |a|
  {
    hide Replace;
    if a == [] {
      assert a + b == b;
    } else {
      assert (a + b)[1..] == a[1..] + b;
      ScrubWithSplit(a[1..], b, Replace(a[0], false, s));
    }
  }

  lemma PotionKeyMatch(u: string)
    requires "pk_" <= u && |u| >= 7 && forall i :: 0 <= i < |u| ==> IsWord(u[i])
    ensures MatchLen(POTION_API_KEY, false, u) == |u|
  {
    var x := u[3..];
    assert forall i :: 0 <= i < |x| ==> x[i] == u[i + 3] && In(AlnumUnder, x[i]);
    hide In, IsWord;
    RunIs(AlnumUnder, x, |x|);
    assert |"pk_"| == 3;
  }

  lemma WholeReplaced(p: Pattern, u: string)
    requires u != [] && MatchLen(p, false, u) == |u|
    ensures Replace(p, false, u) == Replacement(p, u)
  {
    hide MatchLen, Replacement;
    assert u[|u|..] == [];
    assert Replacement(p, u) + [] == Replacement(p, u);
  }

  lemma PlaceholderIsFixed(passes: seq<Pattern>)
    requires forall i :: 0 <= i < |passes| ==> IsPass(passes[i])
    ensures ScrubWith(passes, "<secret:potion-key>") == "<secret:potion-key>"
  {
    var text := "<secret:potion-key>";
    MorePlaceholdersAreOk();
    hide Clean, ScrubWith;
    forall i | 0 <= i < |passes| ensures Clean(passes[i], false, text) {
      PlaceholderIsClean(passes[i]);
    }
    CleanIsFixed(passes, text);
  }

  lemma PlaceholderIsClean(p: Pattern)
    requires IsPass(p)
    ensures Clean(p, false, "<secret:potion-key>")
  {
    var text := "<secret:potion-key>";
    MorePlaceholdersAreOk();
    hide MatchLen;
    assert text + [] == text;
    if p.EnvAssignment? {
      assert Clean(p, IsWord(text[|text| - 1]), []);
      CleanOverLower(false, text, []);
    } else {
      assert Clean(p, false, []);
      CleanBefore(p, false, text, []);
    }
  }

  lemma PotionKeyScrubbed(u: string)
    requires "pk_" <= u && |u| >= 7 && forall i :: 0 <= i < |u| ==> IsWord(u[i])
    ensures Scrub(u) == "<secret:potion-key>"
  {
    var sk := [OPENROUTER_KEY, ANTHROPIC_KEY, OPENAI_PROJECT_KEY, GENERIC_SK_KEY];
    var rest := Patterns()[5..];
    assert Patterns() == sk + ([POTION_API_KEY] + rest);
    assert '-' !in u;
    forall i | 0 <= i < |sk| ensures Clean(sk[i], false, u) {
      NoDashIsClean(sk[i], false, u);
    }
    forall i | 0 <= i < |rest| ensures IsPass(rest[i]) {
      if i < 4 {
        PatternsAreKeyLike(i + 5);
      }
    }
    hide Patterns, Clean, Replace, IsPass, IsWord;
    CleanIsFixed(sk, u);
    ScrubWithSplit(sk, [POTION_API_KEY] + rest, u);
    ScrubWithSplit([POTION_API_KEY], rest, u);
    PotionKeyMatch(u);
    WholeReplaced(POTION_API_KEY, u);
    OnePass(POTION_API_KEY, u);
    PlaceholderIsFixed(rest);
  }

  lemma OnePass(p: Pattern, s: string)
    ensures ScrubWith([p], s) == Replace(p, false, s)
  {
    hide Replace;
  }

  /** For a trace id that is shaped like a Potion key, or becomes so with the underscore behind it as `pk`
      does, the second scrub turns the ids of root and chat into one and the same placeholder. */
  lemma KeyShapedTraceIdCollides(traceId: string)
    requires "pk_" <= traceId + "_" && forall i :: 0 <= i < |traceId| ==> IsWord(traceId[i])
    ensures Scrub(RootId(traceId)) == Scrub(ChatId(traceId)) == "<secret:potion-key>"
  {
    hide Scrub;
    PotionKeyScrubbed(RootId(traceId));
    PotionKeyScrubbed(ChatId(traceId));
  }
}
