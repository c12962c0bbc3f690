/** What one conversion emits, said of the records and not of the converter's passes: which blocks become
    spans, in which order, and what every field of every span holds. */
module SessionReading {
  import opened Text
  import opened Decimal
  import opened Scrubber
  import opened Spelling
  import opened Truncation
  import opened Payload
  import opened Transcript
  import opened TranscriptLaws
  import opened TranscriptReading
  import opened Wrappers

  // ----- the text of a record -----

  /** The text blocks, one after the other, each with a newline behind it. */
  function Printed(blocks: seq<Block>): string {
    if blocks == [] then ""
    else
      Printed(blocks[..|blocks| - 1]) +
      match blocks[|blocks| - 1]
      case TextBlock(text) => text + "\n"
      case ToolUse(_, _, _) => ""
      case ToolResult(_, _) => ""
      case OtherBlock => ""
  }

  /** The text blocks joined by newlines; a plain text as it is. */
  predicate IsTextOf(content: Content, t: string) {
    match content
    case Missing => t == ""
    case Plain(text) => t == text
    case Blocks(blocks) => if Printed(blocks) == "" then t == "" else t + "\n" == Printed(blocks)
  }

  lemma {:induction false} PrintedCons(b: Block, blocks: seq<Block>)
    ensures Printed([b] + blocks) == Printed([b]) + Printed(blocks)
    decreases |blocks|
  {
    if blocks == [] {
      assert [b] + blocks == [b];
    } else {
      var n := |blocks| - 1;
      assert ([b] + blocks)[..n + 1] == [b] + blocks[..n];
      PrintedCons(b, blocks[..n]);
    }
  }

  lemma PrintedOne(b: Block)
    ensures Printed([b]) == if b.TextBlock? then b.text + "\n" else ""
  {
  }

  lemma {:induction false} TextsArePrinted(blocks: seq<Block>)
    ensures var t := JoinLines(Texts(blocks));
      if Texts(blocks) == [] then Printed(blocks) == "" && t == "" else t + "\n" == Printed(blocks)
    decreases |blocks|
  {
    if blocks != [] {
      var rest := blocks[1..];
      assert blocks == [blocks[0]] + rest;
      PrintedCons(blocks[0], rest);
      PrintedOne(blocks[0]);
      TextsArePrinted(rest);
      hide Printed;
      if blocks[0].TextBlock? {
        var line, more := blocks[0].text, JoinLines(Texts(rest));
        assert Texts(blocks) == [line] + Texts(rest) && Texts(blocks)[1..] == Texts(rest);
        assert (line + "\n" + more) + "\n" == (line + "\n") + (more + "\n");
      } else {
        assert Texts(blocks) == Texts(rest);
      }
    }
  }

  lemma AsTextIs(content: Content)
    ensures IsTextOf(content, AsText(content))
  {
    if content.Blocks? {
      TextsArePrinted(content.blocks);
    }
    hide Printed, JoinLines, Texts;
  }

  lemma HasTextIff(t: string)
    ensures HasText(t) <==> !MadeOf(t, SPACES)
  {
    forall i | 0 <= i < |t| ensures IsSpace(t[i]) <==> t[i] in SPACES {
      SpaceSpelled(t[i]);
    }
    hide IsSpace;
  }

  /** The record says something: some character of its text is no white space. */
  ghost predicate Says(r: Record, t: string) {
    IsTextOf(r.content, t) && !MadeOf(t, SPACES)
  }

  lemma SaysIff(r: Record, t: string)
    ensures Says(r, t) <==> t == AsText(r.content) && HasText(t)
  {
    AsTextIs(r.content);
    HasTextIff(t);
    hide HasText, AsText, Printed, MadeOf;
    if IsTextOf(r.content, t) && r.content.Blocks? && Printed(r.content.blocks) != "" {
      assert (t + "\n")[..|t|] == (AsText(r.content) + "\n")[..|t|];
    }
  }

  // ----- where the spans come from -----

  /** The text of a record, or one of its tool calls. */
  datatype Origin = FromText(record: nat) | FromCall(record: nat, block: nat)

  ghost predicate IsOrigin(records: seq<Record>, o: Origin) {
    && o.record < |records|
    && var r := records[o.record];
    && r.kind == "assistant" && r.content.Blocks?
    && match o
       case FromText(_) => exists t :: Says(r, t)
       case FromCall(_, j) => j < |r.content.blocks| && r.content.blocks[j].ToolUse?
  }

  /** In the order of the records; the text of a record before its calls, and those in order. */
  predicate Precedes(a: Origin, b: Origin) {
    a.record < b.record || (a.record == b.record && b.FromCall? && (a.FromCall? ==> a.block < b.block))
  }

  ghost predicate AreOrigins(records: seq<Record>, origins: seq<Origin>) {
    && (forall o :: o in origins <==> IsOrigin(records, o))
    && (forall m, n :: 0 <= m < n < |origins| ==> Precedes(origins[m], origins[n]))
  }

  function CountTexts(origins: seq<Origin>): nat {
    if origins == [] then 0
    else CountTexts(origins[..|origins| - 1]) + if origins[|origins| - 1].FromText? then 1 else 0
  }

  function CountCalls(origins: seq<Origin>): nat {
    if origins == [] then 0
    else CountCalls(origins[..|origins| - 1]) + if origins[|origins| - 1].FromCall? then 1 else 0
  }

  function CallOrigins(i: nat, blocks: seq<Block>): seq<Origin> {
    if blocks == [] then []
    else
      CallOrigins(i, Init(blocks)) + if Last(blocks).ToolUse? then [FromCall(i, |blocks| - 1)] else []
  }

  function RecordOrigins(i: nat, r: Record): seq<Origin> {
    (if IsStep(r) then [FromText(i)] else []) + if IsTurn(r) then CallOrigins(i, r.content.blocks) else []
  }

  function Origins(records: seq<Record>): seq<Origin> {
    if records == [] then [] else Origins(Init(records)) + RecordOrigins(|records| - 1, Last(records))
  }

  lemma {:induction false} CallOriginsAre(i: nat, blocks: seq<Block>)
    ensures forall o :: o in CallOrigins(i, blocks) <==> o.FromCall? && o.record == i && o.block < |blocks| && blocks[o.block].ToolUse?
    ensures forall m, n :: 0 <= m < n < |CallOrigins(i, blocks)| ==> Precedes(CallOrigins(i, blocks)[m], CallOrigins(i, blocks)[n])
    ensures |CallOrigins(i, blocks)| == |ToolUses(blocks)|
    ensures forall m :: 0 <= m < |ToolUses(blocks)| ==>
      CallOrigins(i, blocks)[m].FromCall? && CallOrigins(i, blocks)[m].block < |blocks| && ToolUses(blocks)[m] == blocks[CallOrigins(i, blocks)[m].block]
    decreases |blocks|
  {
    if blocks != [] {
      CallOriginsAre(i, Init(blocks));
      var os := CallOrigins(i, Init(blocks));
      assert forall m :: 0 <= m < |os| ==> os[m] in os;
      assert forall j :: 0 <= j < |blocks| - 1 ==> Init(blocks)[j] == blocks[j];
    }
  }

  lemma StepIff(r: Record)
    ensures IsStep(r) <==> r.kind == "assistant" && r.content.Blocks? && exists t :: Says(r, t)
  {
    SaysIff(r, AsText(r.content));
    forall t ensures Says(r, t) ==> t == AsText(r.content) {
      SaysIff(r, t);
    }
    hide Says, AsText, HasText;
  }

  lemma RecordOriginsAre(records: seq<Record>, i: nat)
    requires i < |records|
    ensures forall o :: o in RecordOrigins(i, records[i]) <==> o.record == i && IsOrigin(records, o)
    ensures var os := RecordOrigins(i, records[i]); forall m, n :: 0 <= m < n < |os| ==> Precedes(os[m], os[n])
  {
    var r := records[i];
    StepIff(r);
    hide Says, IsStep;
    if IsTurn(r) {
      CallOriginsAre(i, r.content.blocks);
      hide CallOrigins, ToolUses;
      var cs := CallOrigins(i, r.content.blocks);
      assert forall m :: 0 <= m < |cs| ==> cs[m] in cs;
    }
  }

  lemma {:induction false} OriginsAre(records: seq<Record>)
    ensures AreOrigins(records, Origins(records))
    decreases |records|
  {
    hide IsOrigin, RecordOrigins;
    if records == [] {
      forall o ensures !IsOrigin(records, o) {
        NoOrigin(records, o);
      }
    } else {
      var front, n := Init(records), |records| - 1;
      OriginsAre(front);
      RecordOriginsAre(records, n);
      forall o ensures IsOrigin(records, o) <==> IsOrigin(front, o) || (o.record == n && IsOrigin(records, o)) {
        OriginStays(records, o);
      }
      var before, more := Origins(front), RecordOrigins(n, records[n]);
      forall m | 0 <= m < |before| ensures before[m].record < n {
        assert before[m] in before;
        OriginStays(records, before[m]);
      }
      assert forall m :: 0 <= m < |more| ==> more[m] in more;
    }
  }

  lemma NoOrigin(records: seq<Record>, o: Origin)
    requires records == []
    ensures !IsOrigin(records, o)
  {
  }

  lemma OriginStays(records: seq<Record>, o: Origin)
    requires records != []
    ensures IsOrigin(records, o) <==> IsOrigin(Init(records), o) || (o.record == |records| - 1 && IsOrigin(records, o))
    ensures IsOrigin(Init(records), o) ==> o.record < |records| - 1
  {
    hide Says;
  }

  lemma {:induction false} CountAppend(a: seq<Origin>, b: seq<Origin>)
    ensures CountTexts(a + b) == CountTexts(a) + CountTexts(b) && CountCalls(a + b) == CountCalls(a) + CountCalls(b)
    decreases |b|
  {
    if b == [] {
      assert a + b == a;
    } else {
      var n := |b| - 1;
      assert (a + b)[..|a| + n] == a + b[..n];
      CountAppend(a, b[..n]);
    }
  }

  lemma {:induction false} CountOfCalls(os: seq<Origin>)
    requires forall m :: 0 <= m < |os| ==> os[m].FromCall?
    ensures CountTexts(os) == 0 && CountCalls(os) == |os|
    decreases |os|
  {
    if os != [] {
      CountOfCalls(os[..|os| - 1]);
    }
  }

  lemma CountOne(i: nat)
    ensures CountTexts([FromText(i)]) == 1 && CountCalls([FromText(i)]) == 0
  {
    assert [FromText(i)][..0] == [];
  }

  lemma AllCalls(i: nat, blocks: seq<Block>)
    ensures forall m :: 0 <= m < |CallOrigins(i, blocks)| ==> CallOrigins(i, blocks)[m].FromCall?
  {
    CallOriginsAre(i, blocks);
    hide CallOrigins;
    var os := CallOrigins(i, blocks);
    assert forall m :: 0 <= m < |os| ==> os[m] in os;
  }

  lemma RecordCounts(i: nat, r: Record)
    ensures CountTexts(RecordOrigins(i, r)) == if IsStep(r) then 1 else 0
    ensures CountCalls(RecordOrigins(i, r)) == if IsTurn(r) then |ToolUses(r.content.blocks)| else 0
  {
    var calls := if IsTurn(r) then CallOrigins(i, r.content.blocks) else [];
    if IsTurn(r) {
      AllCalls(i, r.content.blocks);
      CallOriginsAre(i, r.content.blocks);
    }
    hide CallOrigins, ToolUses, IsStep, CountTexts, CountCalls;
    CountOfCalls(calls);
    CountOfCalls([]);
    CountOne(i);
    CountAppend(if IsStep(r) then [FromText(i)] else [], calls);
  }

  lemma {:induction false} OriginCounts(records: seq<Record>)
    ensures CountTexts(Origins(records)) == |Steps(records)| && CountCalls(Origins(records)) == |ToolCalls(records)|
    decreases |records|
  {
    if records != [] {
      var front, n := Init(records), |records| - 1;
      OriginCounts(front);
      hide RecordOrigins, IsStep, IsTurn, ToolUses, CountTexts, CountCalls;
      RecordCounts(n, records[n]);
      CountAppend(Origins(front), RecordOrigins(n, records[n]));
    }
  }

  /** How many origins of its kind there are up to and with the `m`-th. */
  function Rank(origins: seq<Origin>, m: nat): nat
    requires m < |origins|
  {
    if origins[m].FromText? then CountTexts(origins[..m + 1]) else CountCalls(origins[..m + 1])
  }

  // ----- one span -----

  predicate IsTimeOf(r: Record, rootTs: string, ts: string) {
    r.timestamp == Some(ts) || (r.timestamp == None && ts == rootTs)
  }

  /** `z` is `t` scrubbed and then cut to `n` characters. */
  ghost predicate IsSafe(t: string, n: nat, z: string) {
    IsCut(Scrub(t), n, z)
  }

  /** The span of a model call with text, the `k`-th of the session. */
  ghost predicate IsStepSpan(s: Span, traceId: string, rootTs: string, r: Record, k: nat) {
    && s.traceId == traceId && s.spanId == traceId + "_s" + Digits(k)
    && s.parentId == Some(traceId + "_root") && s.name == "llm.call"
    && (forall model :: s.model == Some(model) <==> r.model == Some(model) && model != "<synthetic>")
    && s.usage == Some(Usage(r.inputTokens, r.outputTokens))
    && (exists t, z :: Says(r, t) && IsSafe(t, 8000, z) &&
          s.attributes == [Field("gen_ai.operation.name", Str("llm_call")), Field("gen_ai.completion", Str(z)),
                           Field("potion.step_index", Other(Digits(k)))])
    && IsTimeOf(r, rootTs, s.ts)
  }

  /** The last attribute of a tool span: the result of the last block of the session that answers the call. */
  ghost predicate IsResult(records: seq<Record>, id: Option<string>, result: seq<Field>) {
    || (result == [] && (id.Some? ==> forall i :: 0 <= i < |records| ==> !Answered(records[i], id.value)))
    || (id.Some? && exists i: nat, j: nat, z ::
          && IsLastAnswer(records, i, j, id.value) && IsSafe(records[i].content.blocks[j].result, 1500, z)
          && result == [Field("tool.result", Str(z))])
  }

  /** The span of a tool call, the `k`-th of the session. */
  ghost predicate IsToolSpan(s: Span, traceId: string, rootTs: string, records: seq<Record>, r: Record, call: Block, k: nat) {
    && call.ToolUse?
    && s.traceId == traceId && s.spanId == traceId + "_t" + Digits(k)
    && s.parentId == Some(traceId + "_root") && s.name == "tool." + call.name
    && s.model == None && s.usage == None
    && (exists z, result :: IsSafe(call.args, 1500, z) && IsResult(records, call.id, result) &&
          s.attributes == [Field("gen_ai.operation.name", Str("execute_tool")), Field("tool.name", Str(call.name)),
                           Field("tool.args", Str(z))] + result)
    && IsTimeOf(r, rootTs, s.ts)
  }

  ghost predicate IsSpanOf(s: Span, traceId: string, rootTs: string, records: seq<Record>, o: Origin, k: nat) {
    o.record < |records| &&
    var r := records[o.record];
    match o
    case FromText(_) => IsStepSpan(s, traceId, rootTs, r, k)
    case FromCall(_, j) => r.content.Blocks? && j < |r.content.blocks| && IsToolSpan(s, traceId, rootTs, records, r, r.content.blocks[j], k)
  }

  lemma SafeIsSafe(t: string, n: nat)
    ensures IsSafe(t, n, Safe(t, n))
  {
    hide Scrub, Safe, IsCut;
    SafeIs(t, n, Safe(t, n));
  }

  lemma StepSpanIs(session: Session, r: Record, k: nat)
    requires IsStep(r)
    ensures IsStepSpan(StepSpan(session, r, k), session.traceId, session.rootTs, r, k)
  {
    var t := AsText(r.content);
    SaysIff(r, t);
    SafeIsSafe(t, 8000);
    hide AsText, HasText, Says, Safe, IsSafe, Digits;
    var s := StepSpan(session, r, k);
    assert s.attributes == [Field("gen_ai.operation.name", Str("llm_call")), Field("gen_ai.completion", Str(Safe(t, 8000))),
                            Field("potion.step_index", Other(Digits(k)))];
  }

  lemma ToolSpanIs(records: seq<Record>, session: Session, r: Record, call: Block, k: nat)
    requires call.ToolUse? && session.results == Results(records)
    ensures IsToolSpan(ToolSpan(session, r, call, k), session.traceId, session.rootTs, records, r, call, k)
  {
    SafeIsSafe(call.args, 1500);
    ResultIs(records, call.id, ResultField(session, call));
    hide Safe, IsSafe, Digits, IsResult, Results, ResultField;
    ToolSpanFields(session, r, call, k);
    hide ToolSpan;
    var z, result := Safe(call.args, 1500), ResultField(session, call);
    assert IsSafe(call.args, 1500, z) && IsResult(records, call.id, result);
  }

  function ResultField(session: Session, call: Block): seq<Field>
    requires call.ToolUse?
  {
    if call.id.Some? && call.id.value in session.results then
      [Field("tool.result", Str(Safe(session.results[call.id.value], 1500)))]
    else []
  }

  lemma ToolSpanFields(session: Session, r: Record, call: Block, k: nat)
    requires call.ToolUse?
    ensures var s := ToolSpan(session, r, call, k);
      && s.traceId == session.traceId && s.spanId == session.traceId + "_t" + Digits(k)
      && s.parentId == Some(session.traceId + "_root") && s.name == "tool." + call.name && s.model == None && s.usage == None
      && s.attributes == [Field("gen_ai.operation.name", Str("execute_tool")), Field("tool.name", Str(call.name)),
                          Field("tool.args", Str(Safe(call.args, 1500)))] + ResultField(session, call)
      && IsTimeOf(r, session.rootTs, s.ts)
  {
    hide Safe, Digits;
  }

  lemma ResultIs(records: seq<Record>, id: Option<string>, result: seq<Field>)
    requires result == if id.Some? && id.value in Results(records) then [Field("tool.result", Str(Safe(Results(records)[id.value], 1500)))] else []
    ensures IsResult(records, id, result)
  {
    hide Safe, IsSafe, Results, Answered, IsLastAnswerIn;
    if id.Some? {
      ResultsAre(records, id.value);
      if id.value in Results(records) {
        SafeIsSafe(Results(records)[id.value], 1500);
        var i: nat, j: nat :| IsLastAnswer(records, i, j, id.value) && Results(records)[id.value] == records[i].content.blocks[j].result;
      }
    }
  }

  // ----- the body -----

  function SpanAt(session: Session, records: seq<Record>, o: Origin, k: nat): Span
    requires IsOrigin(records, o)
  {
    var r := records[o.record];
    match o
    case FromText(_) => StepSpan(session, r, k)
    case FromCall(_, j) => ToolSpan(session, r, r.content.blocks[j], k)
  }

  lemma SpanAtIs(session: Session, records: seq<Record>, o: Origin, k: nat)
    requires IsOrigin(records, o) && session.results == Results(records)
    ensures IsSpanOf(SpanAt(session, records, o, k), session.traceId, session.rootTs, records, o, k)
  {
    var r := records[o.record];
    StepIff(r);
    hide IsStepSpan, IsToolSpan, StepSpan, ToolSpan, Results, Says, IsStep;
    match o
    case FromText(_) => StepSpanIs(session, r, k);
    case FromCall(_, j) => ToolSpanIs(records, session, r, r.content.blocks[j], k);
  }

  lemma RankAppend(a: seq<Origin>, b: seq<Origin>, m: nat)
    ensures m < |a| ==> Rank(a + b, m) == Rank(a, m)
    ensures m < |b| ==> Rank(a + b, |a| + m) == (if b[m].FromText? then CountTexts(a) else CountCalls(a)) + Rank(b, m)
  {
    hide CountTexts, CountCalls;
    if m < |a| {
      assert (a + b)[..m + 1] == a[..m + 1];
    }
    if m < |b| {
      assert (a + b)[..|a| + m + 1] == a + b[..m + 1];
      CountAppend(a, b[..m + 1]);
    }
  }

  lemma CallRank(os: seq<Origin>, m: nat)
    requires m < |os| && forall l :: 0 <= l < |os| ==> os[l].FromCall?
    ensures Rank(os, m) == m + 1
  {
    CountOfCalls(os[..m + 1]);
  }

  lemma TextRank(i: nat)
    ensures Rank([FromText(i)], 0) == 1
  {
    CountOne(i);
    assert [FromText(i)][..1] == [FromText(i)];
  }

  /** The tool calls of a record and their spans. */
  lemma CallSpansAt(session: Session, records: seq<Record>, n: nat, tools: nat)
    requires n < |records| && IsTurn(records[n])
    ensures var uses := ToolUses(records[n].content.blocks); forall i :: 0 <= i < |uses| ==> uses[i].ToolUse?
    ensures var spans, os := ToolSpans(session, records[n], ToolUses(records[n].content.blocks), tools + 1), CallOrigins(n, records[n].content.blocks);
      |spans| == |os| && forall m :: 0 <= m < |os| ==>
        os[m].FromCall? && IsOrigin(records, os[m]) && spans[m] == SpanAt(session, records, os[m], tools + Rank(os, m))
  {
    var blocks := records[n].content.blocks;
    var os := CallOrigins(n, blocks);
    ToolUsesAreToolUses(blocks);
    CallOriginsAre(n, blocks);
    AllCalls(n, blocks);
    hide ToolSpan, CallOrigins, ToolUses, Rank;
    forall m | 0 <= m < |os| ensures Rank(os, m) == m + 1 && os[m] in os {
      CallRank(os, m);
    }
  }

  /** Spans and where they come from, behind so many texts and calls. */
  ghost predicate AreSpansAt(session: Session, records: seq<Record>, spans: seq<Span>, os: seq<Origin>, steps: nat, tools: nat) {
    |spans| == |os| && forall m :: 0 <= m < |os| ==> IsSpanAt(session, records, spans[m], os[m], Base(os[m], steps, tools) + Rank(os, m))
  }

  ghost predicate IsSpanAt(session: Session, records: seq<Record>, s: Span, o: Origin, k: nat) {
    IsOrigin(records, o) && s == SpanAt(session, records, o, k)
  }

  function Base(o: Origin, steps: nat, tools: nat): nat {
    if o.FromText? then steps else tools
  }

  lemma AreSpansAppend(session: Session, records: seq<Record>, a: seq<Span>, b: seq<Span>, os: seq<Origin>, ps: seq<Origin>, steps: nat, tools: nat)
    requires AreSpansAt(session, records, a, os, steps, tools)
    requires AreSpansAt(session, records, b, ps, steps + CountTexts(os), tools + CountCalls(os))
    ensures AreSpansAt(session, records, a + b, os + ps, steps, tools)
  {
    hide IsSpanAt, Rank, CountTexts, CountCalls;
    forall m | 0 <= m < |os + ps|
      ensures IsSpanAt(session, records, (a + b)[m], (os + ps)[m], Base((os + ps)[m], steps, tools) + Rank(os + ps, m))
    {
      if m < |os| {
        RankAppend(os, ps, m);
      } else {
        RankAppend(os, ps, m - |os|);
        assert (os + ps)[m] == ps[m - |os|] && (a + b)[m] == b[m - |os|];
      }
    }
  }

  lemma NoSpans(session: Session, records: seq<Record>, steps: nat, tools: nat)
    ensures AreSpansAt(session, records, [], [], steps, tools) && CountTexts([]) == 0 && CountCalls([]) == 0
  {
  }

  lemma StepSpanAt(session: Session, records: seq<Record>, n: nat, steps: nat, tools: nat)
    requires n < |records| && IsStep(records[n])
    ensures AreSpansAt(session, records, [StepSpan(session, records[n], steps + 1)], [FromText(n)], steps, tools)
  {
    StepIff(records[n]);
    TextRank(n);
    hide StepSpan, Says, IsStep, Rank;
  }

  lemma RecordSpansAt(session: Session, records: seq<Record>, n: nat, steps: nat, tools: nat)
    requires n < |records|
    ensures AreSpansAt(session, records, RecordSpans(session, records[n], steps, tools), RecordOrigins(n, records[n]), steps, tools)
  {
    if IsTurn(records[n]) {
      ToolUsesAreToolUses(records[n].content.blocks);
      hide *;
      TurnParts(session, records[n], n, steps, tools);
      CallSpansAt(session, records, n, tools);
      if IsStep(records[n]) {
        StepThenCalls(session, records, n, steps, tools);
      } else {
        CallsAreSpansAt(session, records, n, steps, tools);
      }
    } else {
      NoSpans(session, records, steps, tools);
      NoStep(records[n]);
      hide AreSpansAt, IsStep;
    }
  }

  lemma TurnParts(session: Session, r: Record, n: nat, steps: nat, tools: nat)
    requires IsTurn(r)
    ensures var uses := ToolUses(r.content.blocks); forall i :: 0 <= i < |uses| ==> uses[i].ToolUse?
    ensures var calls, os := ToolSpans(session, r, ToolUses(r.content.blocks), tools + 1), CallOrigins(n, r.content.blocks);
      if IsStep(r) then
        RecordSpans(session, r, steps, tools) == [StepSpan(session, r, steps + 1)] + calls && RecordOrigins(n, r) == [FromText(n)] + os
      else RecordSpans(session, r, steps, tools) == calls && RecordOrigins(n, r) == os
  {
    ToolUsesAreToolUses(r.content.blocks);
    hide StepSpan, ToolSpans, ToolUses, CallOrigins, IsStep;
    var calls, os := ToolSpans(session, r, ToolUses(r.content.blocks), tools + 1), CallOrigins(n, r.content.blocks);
    assert [] + calls == calls && [] + os == os;
  }

  lemma StepThenCalls(session: Session, records: seq<Record>, n: nat, steps: nat, tools: nat)
    requires n < |records| && IsTurn(records[n]) && IsStep(records[n])
    ensures var uses := ToolUses(records[n].content.blocks); forall i :: 0 <= i < |uses| ==> uses[i].ToolUse?
    ensures var r := records[n];
      AreSpansAt(session, records, [StepSpan(session, r, steps + 1)] + ToolSpans(session, r, ToolUses(r.content.blocks), tools + 1),
                 [FromText(n)] + CallOrigins(n, r.content.blocks), steps, tools)
  {
    var r := records[n];
    ToolUsesAreToolUses(r.content.blocks);
    var calls, os := ToolSpans(session, r, ToolUses(r.content.blocks), tools + 1), CallOrigins(n, r.content.blocks);
    hide *;
    CallsAreSpansAt(session, records, n, steps + 1, tools);
    StepSpanAt(session, records, n, steps, tools);
    CountOne(n);
    AreSpansAppend(session, records, [StepSpan(session, r, steps + 1)], calls, [FromText(n)], os, steps, tools);
  }

  lemma NoStep(r: Record)
    requires !IsTurn(r)
    ensures !IsStep(r)
  {
  }

  lemma CallsAreSpansAt(session: Session, records: seq<Record>, n: nat, steps: nat, tools: nat)
    requires n < |records| && IsTurn(records[n])
    ensures var uses := ToolUses(records[n].content.blocks); forall i :: 0 <= i < |uses| ==> uses[i].ToolUse?
    ensures AreSpansAt(session, records, ToolSpans(session, records[n], ToolUses(records[n].content.blocks), tools + 1),
                       CallOrigins(n, records[n].content.blocks), steps, tools)
  {
    CallSpansAt(session, records, n, tools);
    hide IsOrigin, Rank, ToolSpans, ToolUses, CallOrigins, SpanAt;
  }

  lemma AreSpansStay(session: Session, records: seq<Record>, spans: seq<Span>, os: seq<Origin>, steps: nat, tools: nat)
    requires records != [] && AreSpansAt(session, Init(records), spans, os, steps, tools)
    ensures AreSpansAt(session, records, spans, os, steps, tools)
  {
    hide Rank, IsOrigin, StepSpan, ToolSpan;
    forall o | IsOrigin(Init(records), o) ensures IsOrigin(records, o) {
      OriginStays(records, o);
    }
    forall m | 0 <= m < |os| ensures IsSpanAt(session, records, spans[m], os[m], Base(os[m], steps, tools) + Rank(os, m)) {
      assert IsSpanAt(session, Init(records), spans[m], os[m], Base(os[m], steps, tools) + Rank(os, m));
      OriginStays(records, os[m]);
      assert Init(records)[os[m].record] == records[os[m].record];
    }
  }

  lemma {:induction false} BodyAt(session: Session, records: seq<Record>)
    ensures AreSpansAt(session, records, BodySpans(session, records), Origins(records), 0, 0)
    decreases |records|
  {
    if records == [] {
      NoSpans(session, records, 0, 0);
    } else {
      BodyAt(session, Init(records));
      BodyNext(session, records);
    }
  }

  lemma BodyNext(session: Session, records: seq<Record>)
    requires records != [] && AreSpansAt(session, Init(records), BodySpans(session, Init(records)), Origins(Init(records)), 0, 0)
    ensures AreSpansAt(session, records, BodySpans(session, records), Origins(records), 0, 0)
  {
    hide *;
    var front, n := Init(records), |records| - 1;
    var steps, tools := |Steps(front)|, |ToolCalls(front)|;
    var more, os := RecordSpans(session, records[n], steps, tools), RecordOrigins(n, records[n]);
    BodyUnfolds(session, records);
    OriginCounts(front);
    RecordSpansAt(session, records, n, steps, tools);
    AreSpansStay(session, records, BodySpans(session, front), Origins(front), 0, 0);
    AreSpansAppend(session, records, BodySpans(session, front), more, Origins(front), os, 0, 0);
  }

  lemma BodyUnfolds(session: Session, records: seq<Record>)
    requires records != []
    ensures var front, r := Init(records), records[|records| - 1];
      && BodySpans(session, records) == BodySpans(session, front) + RecordSpans(session, r, |Steps(front)|, |ToolCalls(front)|)
      && Origins(records) == Origins(front) + RecordOrigins(|records| - 1, r)
  {
    hide RecordSpans, RecordOrigins;
  }

  // ----- root, chat and the counts -----

  ghost predicate IsRootSpan(s: Span, traceId: string, rootTs: string, records: seq<Record>) {
    && s.traceId == traceId && s.spanId == traceId + "_root" && s.parentId == None && s.name == "agent.root"
    && s.model == None && s.usage == None && s.ts == rootTs
    && exists t, z :: IsPromptOf(records, t) && IsSafe(t, 8000, z) && s.attributes == [Field("gen_ai.prompt", Str(z))]
  }

  function Total(ns: seq<nat>): nat {
    if ns == [] then 0 else ns[0] + Total(ns[1..])
  }

  lemma {:induction false} TotalAppend(ns: seq<nat>, n: nat)
    ensures Total(ns + [n]) == Total(ns) + n
    decreases |ns|
  {
    if ns == [] {
      assert ns + [n] == [n] && [n][1..] == [];
    } else {
      assert (ns + [n])[1..] == ns[1..] + [n];
      TotalAppend(ns[1..], n);
    }
  }

  /** The tokens that assistant records report, others as none. */
  function InputTokens(records: seq<Record>): seq<nat> {
    seq(|records|, i requires 0 <= i < |records| => if records[i].kind == "assistant" then records[i].inputTokens else 0)
  }

  function OutputTokens(records: seq<Record>): seq<nat> {
    seq(|records|, i requires 0 <= i < |records| => if records[i].kind == "assistant" then records[i].outputTokens else 0)
  }

  lemma {:induction false} SumsAre(records: seq<Record>)
    ensures SumInput(records) == Total(InputTokens(records)) && SumOutput(records) == Total(OutputTokens(records))
    decreases |records|
  {
    if records != [] {
      var front, r := Init(records), Last(records);
      SumsAre(front);
      var i, o := if r.kind == "assistant" then r.inputTokens else 0, if r.kind == "assistant" then r.outputTokens else 0;
      assert InputTokens(records) == InputTokens(front) + [i] && OutputTokens(records) == OutputTokens(front) + [o];
      TotalAppend(InputTokens(front), i);
      TotalAppend(OutputTokens(front), o);
    }
  }

  /** The text of the last record that has a text span, and empty without one. */
  ghost predicate IsFinalText(records: seq<Record>, t: string) {
    || (exists i: nat :: IsOrigin(records, FromText(i)) && Says(records[i], t) && forall j: nat :: j > i ==> !IsOrigin(records, FromText(j)))
    || (t == "" && forall j: nat :: !IsOrigin(records, FromText(j)))
  }

  lemma {:induction false} FinalTextIs(records: seq<Record>)
    ensures IsFinalText(records, FinalText(records))
    decreases |records|
  {
    if records != [] {
      var front, n := Init(records), |records| - 1;
      FinalTextIs(front);
      FinalTextNext(records);
      StepIff(records[n]);
      forall j: nat ensures IsOrigin(records, FromText(j)) <==> IsOrigin(front, FromText(j)) || (j == n && IsOrigin(records, FromText(j))) {
        OriginStays(records, FromText(j));
      }
      SaysIff(records[n], AsText(records[n].content));
      hide Says, Steps, FinalText, AsText, HasText;
      if IsStep(records[n]) {
        assert IsOrigin(records, FromText(n));
      } else if i: nat :| IsOrigin(front, FromText(i)) && Says(front[i], FinalText(front)) && forall j: nat :: j > i ==> !IsOrigin(front, FromText(j)) {
        assert IsOrigin(records, FromText(i)) && records[i] == front[i];
      }
    } else {
      hide Says;
    }
  }

  lemma FinalTextNext(records: seq<Record>)
    requires records != []
    ensures FinalText(records) == if IsStep(Last(records)) then AsText(Last(records).content) else FinalText(Init(records))
  {
    hide AsText, IsStep;
  }

  /** The time of the last assistant record that has one. */
  ghost predicate IsChatTime(records: seq<Record>, rootTs: string, ts: string) {
    || (exists i: nat :: IsLastStamp(records, i) && records[i].timestamp == Some(ts))
    || ((forall i :: 0 <= i < |records| ==> !IsStamped(records[i])) && ts == rootTs)
  }

  ghost predicate IsChatSpan(s: Span, traceId: string, rootTs: string, records: seq<Record>) {
    && s.traceId == traceId && s.spanId == traceId + "_chat" && s.parentId == Some(traceId + "_root") && s.name == "chat"
    && (exists models :: AreModels(records, models) && s.model == if models == [] then None else Some(models[0]))
    && s.usage == Some(Usage(Total(InputTokens(records)), Total(OutputTokens(records))))
    && (exists t, z :: IsFinalText(records, t) && IsSafe(t, 8000, z) && s.attributes == [Field("gen_ai.completion", Str(z))])
    && IsChatTime(records, rootTs, s.ts)
  }

  lemma RootSpanIs(session: Session, records: seq<Record>)
    ensures IsRootSpan(RootSpan(session, Prompt(records)), session.traceId, session.rootTs, records)
  {
    PromptIsFirst(records);
    SafeIsSafe(Prompt(records), 8000);
    hide IsPromptOf, IsSafe, Safe, Prompt;
    var s := RootSpan(session, Prompt(records));
    assert s.attributes == [Field("gen_ai.prompt", Str(Safe(Prompt(records), 8000)))];
  }

  lemma ChatSpanIs(session: Session, records: seq<Record>)
    ensures IsChatSpan(ChatSpan(session, records), session.traceId, session.rootTs, records)
  {
    ModelsSeenAre(records);
    SumsAre(records);
    FinalTextIs(records);
    SafeIsSafe(FinalText(records), 8000);
    LastTimestampIsLast(records, session.rootTs);
    hide AreModels, IsFinalText, IsSafe, Safe, ModelsSeen, SumInput, SumOutput, FinalText, LastTimestamp, Total, InputTokens,
      OutputTokens, IsLastStamp, IsStamped;
    var s := ChatSpan(session, records);
    assert s.attributes == [Field("gen_ai.completion", Str(Safe(FinalText(records), 8000)))];
  }

  // ----- the signature -----

  /** The tool call that starts there is one of the tool `name`. */
  ghost predicate UsesTool(records: seq<Record>, o: Origin, name: string) {
    IsOrigin(records, o) && o.FromCall? && records[o.record].content.blocks[o.block].name == name
  }

  /** Some call of `a` comes before all calls of `b`. */
  ghost predicate UsedBefore(records: seq<Record>, a: string, b: string) {
    exists o :: UsesTool(records, o, a) && forall p :: UsesTool(records, p, b) ==> Precedes(o, p)
  }

  /** Each tool that is called, once, in the order of first use. */
  ghost predicate IsSignature(records: seq<Record>, names: seq<string>) {
    && NoDuplicates(names)
    && (forall name :: name in names <==> exists o :: UsesTool(records, o, name))
    && (forall m, n :: 0 <= m < n < |names| ==> UsedBefore(records, names[m], names[n]))
  }

  function CallsOf(records: seq<Record>): seq<Origin> {
    if records == [] then []
    else CallsOf(Init(records)) + if IsTurn(Last(records)) then CallOrigins(|records| - 1, Last(records).content.blocks) else []
  }

  /** A tool call of the session. */
  predicate IsCall(records: seq<Record>, o: Origin) {
    && o.FromCall? && o.record < |records| && IsTurn(records[o.record])
    && o.block < |records[o.record].content.blocks| && records[o.record].content.blocks[o.block].ToolUse?
  }

  predicate IsCallOf(records: seq<Record>, o: Origin, call: Block) {
    IsCall(records, o) && call == records[o.record].content.blocks[o.block]
  }

  lemma CallIff(records: seq<Record>, o: Origin)
    ensures IsOrigin(records, o) && o.FromCall? <==> IsCall(records, o)
  {
    hide Says;
  }

  /** `os` are the tool calls of the session in order, and `calls` the blocks they stand for. */
  ghost predicate AreCalls(records: seq<Record>, os: seq<Origin>, calls: seq<Block>) {
    && |os| == |calls|
    && (forall m :: 0 <= m < |os| ==> IsCallOf(records, os[m], calls[m]))
    && (forall o :: IsCall(records, o) ==> o in os)
    && (forall m, n :: 0 <= m < n < |os| ==> Precedes(os[m], os[n]))
  }

  lemma {:induction false} CallsOfAre(records: seq<Record>)
    ensures AreCalls(records, CallsOf(records), ToolCalls(records))
    decreases |records|
  {
    if records != [] {
      CallsOfAre(Init(records));
      CallsNext(records, CallsOf(Init(records)), ToolCalls(Init(records)));
    }
  }

  lemma CallsNext(records: seq<Record>, os: seq<Origin>, calls: seq<Block>)
    requires records != [] && AreCalls(Init(records), os, calls)
    ensures var r := Last(records);
      AreCalls(records, os + (if IsTurn(r) then CallOrigins(|records| - 1, r.content.blocks) else []),
               calls + (if IsTurn(r) then ToolUses(r.content.blocks) else []))
  {
    var r, n := Last(records), |records| - 1;
    if IsTurn(r) {
      TurnCalls(records, r.content.blocks, CallOrigins(n, r.content.blocks), ToolUses(r.content.blocks));
    }
    forall o ensures IsCall(records, o) && o.record == n ==> IsTurn(r) {
    }
    CallsAppend(records, os, calls, if IsTurn(r) then CallOrigins(n, r.content.blocks) else [],
                if IsTurn(r) then ToolUses(r.content.blocks) else []);
  }

  lemma CallStays(records: seq<Record>, o: Origin)
    requires records != []
    ensures forall call :: IsCallOf(Init(records), o, call) ==> o.record < |records| - 1 && IsCallOf(records, o, call)
    ensures IsCall(records, o) ==> IsCall(Init(records), o) || o.record == |records| - 1
  {
    hide IsTurn;
  }

  lemma CallsAppend(records: seq<Record>, os: seq<Origin>, calls: seq<Block>, more: seq<Origin>, uses: seq<Block>)
    requires records != [] && AreCalls(Init(records), os, calls) && |more| == |uses|
    requires forall m :: 0 <= m < |more| ==> more[m].record == |records| - 1 && IsCallOf(records, more[m], uses[m])
    requires forall m, n :: 0 <= m < n < |more| ==> Precedes(more[m], more[n])
    requires forall o :: IsCall(records, o) && o.record == |records| - 1 ==> o in more
    ensures AreCalls(records, os + more, calls + uses)
  {
    hide IsCall, IsCallOf;
    var n, all, blocks := |records| - 1, os + more, calls + uses;
    forall m | 0 <= m < |os| ensures os[m].record < n && IsCallOf(records, os[m], calls[m]) {
      CallStays(records, os[m]);
    }
    forall m | 0 <= m < |all| ensures IsCallOf(records, all[m], blocks[m]) {
      if m >= |os| {
        assert all[m] == more[m - |os|] && blocks[m] == uses[m - |os|];
      }
    }
    forall o | IsCall(records, o) ensures o in all {
      CallStays(records, o);
    }
    BehindAll(os, more, n);
  }

  lemma BehindAll(os: seq<Origin>, more: seq<Origin>, n: nat)
    requires forall m :: 0 <= m < |os| ==> os[m].record < n
    requires forall m :: 0 <= m < |more| ==> more[m].record == n
    requires forall l, m :: 0 <= l < m < |os| ==> Precedes(os[l], os[m])
    requires forall l, m :: 0 <= l < m < |more| ==> Precedes(more[l], more[m])
    ensures var all := os + more; forall l, m :: 0 <= l < m < |all| ==> Precedes(all[l], all[m])
  {
  }

  lemma TurnCalls(records: seq<Record>, blocks: seq<Block>, more: seq<Origin>, uses: seq<Block>)
    requires records != [] && IsTurn(Last(records)) && blocks == Last(records).content.blocks
    requires more == CallOrigins(|records| - 1, blocks) && uses == ToolUses(blocks)
    ensures |more| == |uses| && forall m :: 0 <= m < |more| ==> more[m].record == |records| - 1 && IsCallOf(records, more[m], uses[m])
    ensures forall o :: IsCall(records, o) && o.record == |records| - 1 ==> o in more
    ensures forall m, n :: 0 <= m < n < |more| ==> Precedes(more[m], more[n])
  {
    hide *;
    var n := |records| - 1;
    CallOriginsAre(n, blocks);
    forall m | 0 <= m < |more| ensures more[m].record == n && IsCallOf(records, more[m], uses[m]) {
      assert more[m] in more;
      TurnCall(records, blocks, more[m]);
    }
    forall o | IsCall(records, o) && o.record == n ensures o in more {
      TurnCall(records, blocks, o);
    }
  }

  lemma TurnCall(records: seq<Record>, blocks: seq<Block>, o: Origin)
    requires records != [] && IsTurn(Last(records)) && blocks == Last(records).content.blocks && o.record == |records| - 1
    ensures IsCall(records, o) <==> o.FromCall? && o.block < |blocks| && blocks[o.block].ToolUse?
    ensures IsCall(records, o) ==> IsCallOf(records, o, blocks[o.block])
  {
  }

  lemma SignatureIs(records: seq<Record>)
    ensures forall i :: 0 <= i < |ToolCalls(records)| ==> ToolCalls(records)[i].ToolUse?
    ensures IsSignature(records, FirstUses(NamesOf(ToolCalls(records))))
  {
    CallsOfAre(records);
    forall o ensures IsOrigin(records, o) && o.FromCall? <==> IsCall(records, o) {
      CallIff(records, o);
    }
    var os, calls := CallsOf(records), ToolCalls(records);
    hide CallsOf, ToolCalls, IsOrigin;
    var names := NamesOf(calls);
    SignatureIsFirstUse(names);
    var sig := FirstUses(names);
    hide FirstUses, FirstIndex;
    forall name ensures name in sig <==> exists o :: UsesTool(records, o, name) {
      NameUsed(records, os, calls, name);
    }
    forall m, n | 0 <= m < n < |sig| ensures UsedBefore(records, sig[m], sig[n]) {
      assert sig[m] in sig && sig[n] in sig;
      FirstComesFirst(records, os, calls, sig[m], sig[n]);
    }
  }

  lemma NameUsed(records: seq<Record>, os: seq<Origin>, calls: seq<Block>, name: string)
    requires AreCalls(records, os, calls) && forall i :: 0 <= i < |calls| ==> calls[i].ToolUse?
    ensures name in NamesOf(calls) <==> exists o :: UsesTool(records, o, name)
  {
    forall o ensures IsOrigin(records, o) && o.FromCall? <==> IsCall(records, o) {
      CallIff(records, o);
    }
    hide IsOrigin;
    var names := NamesOf(calls);
    if name in names {
      var m :| 0 <= m < |names| && names[m] == name;
      assert UsesTool(records, os[m], name);
    }
    if o :| UsesTool(records, o, name) {
      var m :| 0 <= m < |os| && os[m] == o;
      assert names[m] == name;
    }
  }

  lemma FirstComesFirst(records: seq<Record>, os: seq<Origin>, calls: seq<Block>, a: string, b: string)
    requires AreCalls(records, os, calls) && forall i :: 0 <= i < |calls| ==> calls[i].ToolUse?
    requires a in NamesOf(calls) && b in NamesOf(calls) && FirstIndex(a, NamesOf(calls)) < FirstIndex(b, NamesOf(calls))
    ensures UsedBefore(records, a, b)
  {
    forall o ensures IsOrigin(records, o) && o.FromCall? <==> IsCall(records, o) {
      CallIff(records, o);
    }
    hide IsOrigin, FirstIndex;
    var names := NamesOf(calls);
    var i, j := FirstIndex(a, names), FirstIndex(b, names);
    assert UsesTool(records, os[i], a);
    forall l | 0 <= l < j ensures names[l] != b {
      assert names[..j][l] == names[l];
    }
    forall p | UsesTool(records, p, b) ensures Precedes(os[i], p) {
      var l :| 0 <= l < |os| && os[l] == p;
      assert names[l] == b;
    }
  }

  // ----- the conversion -----

  /** The spans before the second scrub. */
  ghost predicate AreSpans(records: seq<Record>, traceId: string, rootTs: string, origins: seq<Origin>, raw: seq<Span>) {
    && IsRootTs(records, rootTs) && AreOrigins(records, origins) && |raw| == |origins| + 2
    && IsRootSpan(raw[0], traceId, rootTs, records)
    && (forall m :: 0 <= m < |origins| ==> IsSpanOf(raw[m + 1], traceId, rootTs, records, origins[m], Rank(origins, m)))
    && IsChatSpan(raw[|origins| + 1], traceId, rootTs, records)
  }

  predicate IsScrubbedOption(raw: Option<string>, s: Option<string>) {
    match raw
    case None => s == None
    case Some(text) => s == Some(Scrub(text))
  }

  /** A span with every string in it scrubbed; its tokens and its keys stay. */
  predicate IsScrubbedSpan(raw: Span, s: Span) {
    && s.traceId == Scrub(raw.traceId) && s.spanId == Scrub(raw.spanId) && s.name == Scrub(raw.name) && s.ts == Scrub(raw.ts)
    && IsScrubbedOption(raw.parentId, s.parentId) && IsScrubbedOption(raw.model, s.model)
    && s.usage == raw.usage
    && Obj(s.attributes) == ScrubDeep(Obj(raw.attributes))
  }

  /** The conversion of a session. */
  ghost predicate IsConversion(records: seq<Record>, traceId: string, c: Conversion) {
    && (exists rootTs: string, origins: seq<Origin>, raw: seq<Span> ::
          && AreSpans(records, traceId, rootTs, origins, raw)
          && |c.spans| == |raw| && (forall i :: 0 <= i < |raw| ==> IsScrubbedSpan(raw[i], c.spans[i]))
          && c.llmCalls == CountTexts(origins) && c.toolCalls == CountCalls(origins))
    && IsSignature(records, c.toolSignature) && AreModels(records, c.models)
    && (c.hasReference <==> exists i :: IsOrigin(records, FromText(i)))
  }

  lemma RawSpansAre(records: seq<Record>, traceId: string)
    ensures AreSpans(records, traceId, FirstTimestamp(records), Origins(records), RawSpans(records, traceId))
  {
    var session, origins := SessionOf(records, traceId), Origins(records);
    var body := BodySpans(session, records);
    FirstTimestampIsFirst(records);
    OriginsAre(records);
    RootSpanIs(session, records);
    ChatSpanIs(session, records);
    BodyAt(session, records);
    hide IsRootTs, AreOrigins, IsRootSpan, IsChatSpan, IsSpanOf, IsOrigin, SpanAt, Rank, FirstTimestamp, Results, Origins,
      BodySpans, RootSpan, ChatSpan, Prompt;
    forall m | 0 <= m < |origins| ensures IsSpanOf(body[m], traceId, session.rootTs, records, origins[m], Rank(origins, m)) {
      assert IsSpanAt(session, records, body[m], origins[m], Base(origins[m], 0, 0) + Rank(origins, m));
      SpanAtIs(session, records, origins[m], Rank(origins, m));
    }
    var raw := RawSpans(records, traceId);
    assert forall m :: 0 <= m < |origins| ==> raw[m + 1] == body[m];
  }

  lemma ReferenceIff(records: seq<Record>)
    ensures HasText(FinalText(records)) <==> exists i :: IsOrigin(records, FromText(i))
  {
    ReferenceIffSteps(records);
    OriginCounts(records);
    OriginsAre(records);
    hide Steps, Origins, IsOrigin, HasText, FinalText;
    var os := Origins(records);
    TextCounted(os);
    if m :| 0 <= m < |os| && os[m].FromText? {
      assert os[m] in os && os[m] == FromText(os[m].record);
    }
    if i :| IsOrigin(records, FromText(i)) {
      assert FromText(i) in os;
    }
  }

  lemma {:induction false} TextCounted(os: seq<Origin>)
    ensures CountTexts(os) > 0 <==> exists m :: 0 <= m < |os| && os[m].FromText?
    decreases |os|
  {
    if os != [] {
      var n := |os| - 1;
      TextCounted(os[..n]);
      assert forall m :: 0 <= m < n ==> os[..n][m] == os[m];
    }
  }

  lemma SpanScrubbed(s: Span)
    ensures IsScrubbedSpan(s, ScrubSpan(s))
  {
    hide Scrub;
  }

  lemma ConversionIs(records: seq<Record>, traceId: string, c: Conversion)
    requires c.spans == ScrubSpans(RawSpans(records, traceId))
    requires c.toolCalls == |ToolCalls(records)| && c.llmCalls == |Steps(records)|
    requires forall i :: 0 <= i < |ToolCalls(records)| ==> ToolCalls(records)[i].ToolUse?
    requires c.toolSignature == FirstUses(NamesOf(ToolCalls(records)))
    requires c.hasReference <==> HasText(FinalText(records))
    requires c.models == ModelsSeen(records)
    ensures IsConversion(records, traceId, c)
  {
    RawSpansAre(records, traceId);
    OriginCounts(records);
    SignatureIs(records);
    ModelsSeenAre(records);
    ReferenceIff(records);
    hide AreSpans, IsSignature, AreModels, IsOrigin, RawSpans, ToolCalls, Steps, FirstUses, NamesOf, ModelsSeen, FinalText, HasText,
      Origins, FirstTimestamp, IsScrubbedSpan, ScrubSpan;
    var raw := RawSpans(records, traceId);
    forall i | 0 <= i < |raw| ensures IsScrubbedSpan(raw[i], c.spans[i]) {
      SpanScrubbed(raw[i]);
    }
  }
}
