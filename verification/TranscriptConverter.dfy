/** The converter's loops, and what every conversion keeps. */
module TranscriptConverter {
  import opened Text
  import opened Decimal
  import opened Scrubber
  import opened Truncation
  import opened Payload
  import opened Transcript
  import opened TranscriptReading
  import opened SessionReading
  import opened Wrappers

  method FindPrompt(records: seq<Record>) returns (prompt: string)
    ensures prompt == Prompt(records)
    ensures IsPromptOf(records, prompt)
  {
    PromptIsFirst(records);
    hide IsPromptOf;
    for i := 0 to |records|
      invariant Prompt(records[i..]) == Prompt(records)
    {
      var text := AsText(records[i].content);
      assert records[i..][1..] == records[i + 1..];
      if records[i].kind == "user" && HasText(text) {
        return text;
      }
    }
    prompt := "";
  }

  method FindFirstTimestamp(records: seq<Record>) returns (ts: string)
    ensures ts == FirstTimestamp(records)
    ensures IsRootTs(records, ts)
  {
    FirstTimestampIsFirst(records);
    hide IsRootTs;
    for i := 0 to |records|
      invariant FirstTimestamp(records[i..]) == FirstTimestamp(records)
    {
      assert records[i..][1..] == records[i + 1..];
      if records[i].timestamp.Some? {
        return records[i].timestamp.value;
      }
    }
    ts := EPOCH;
  }

  method CollectResults(records: seq<Record>) returns (resultById: map<string, string>)
    ensures resultById == Results(records)
    ensures AreResults(records, resultById)
  {
    ResultsAreLastAnswers(records);
    hide AreResults;
    resultById := map[];
    for i := 0 to |records|
      invariant resultById == Results(records[..i])
    {
      assert Init(records[..i + 1]) == records[..i];
      if records[i].content.Blocks? {
        var blocks := records[i].content.blocks;
        for j := 0 to |blocks|
          invariant resultById == BlockResults(blocks[..j], Results(records[..i]))
        {
          assert Init(blocks[..j + 1]) == blocks[..j];
          if blocks[j].ToolResult? {
            resultById := resultById[blocks[j].toolUseId := blocks[j].result];
          }
        }
        assert blocks[..|blocks|] == blocks;
      }
    }
    assert records[..|records|] == records;
  }

  lemma {:induction false} ToolCallsAreToolUses(records: seq<Record>)
    ensures forall i :: 0 <= i < |ToolCalls(records)| ==> ToolCalls(records)[i].ToolUse?
    decreases |records|
  {
    if records != [] {
      ToolCallsAreToolUses(Init(records));
      if IsTurn(Last(records)) {
        ToolUsesAreToolUses(Last(records).content.blocks);
      }
    }
  }

  /** What one more block adds to the calls, their names and their spans. */
  lemma OneMoreBlock(session: Session, r: Record, blocks: seq<Block>, j: nat, first: nat, calls: seq<Block>)
    requires j < |blocks| && forall i :: 0 <= i < |calls| ==> calls[i].ToolUse?
    requires forall i :: 0 <= i < |ToolUses(blocks[..j])| ==> ToolUses(blocks[..j])[i].ToolUse?
    ensures var uses' := ToolUses(blocks[..j + 1]); forall i :: 0 <= i < |uses'| ==> uses'[i].ToolUse?
    ensures var b, uses, uses' := blocks[j], ToolUses(blocks[..j]), ToolUses(blocks[..j + 1]);
      if b.ToolUse? then
        && |uses'| == |uses| + 1
        && ToolSpans(session, r, uses', first) == ToolSpans(session, r, uses, first) + [ToolSpan(session, r, b, first + |uses|)]
        && FirstUses(NamesOf(calls + uses')) ==
             (var seen := FirstUses(NamesOf(calls + uses)); if b.name in seen then seen else seen + [b.name])
      else uses' == uses
  {
    hide *;
    var b := blocks[j];
    UsesGrow(blocks, j);
    var uses := ToolUses(blocks[..j]);
    if b.ToolUse? {
      SpansGrow(session, r, uses, b, first);
      NamesGrow(calls + uses, b);
      assert calls + (uses + [b]) == (calls + uses) + [b];
    }
  }

  lemma UsesGrow(blocks: seq<Block>, j: nat)
    requires j < |blocks|
    ensures ToolUses(blocks[..j + 1]) == if blocks[j].ToolUse? then ToolUses(blocks[..j]) + [blocks[j]] else ToolUses(blocks[..j])
  {
    assert Init(blocks[..j + 1]) == blocks[..j];
    assert ToolUses(blocks[..j]) + [] == ToolUses(blocks[..j]);
  }

  lemma SpansGrow(session: Session, r: Record, uses: seq<Block>, b: Block, first: nat)
    requires b.ToolUse? && forall i :: 0 <= i < |uses| ==> uses[i].ToolUse?
    ensures ToolSpans(session, r, uses + [b], first) == ToolSpans(session, r, uses, first) + [ToolSpan(session, r, b, first + |uses|)]
  {
    hide ToolSpan;
  }

  lemma NamesGrow(calls: seq<Block>, b: Block)
    requires b.ToolUse? && forall i :: 0 <= i < |calls| ==> calls[i].ToolUse?
    ensures FirstUses(NamesOf(calls + [b])) ==
      (var seen := FirstUses(NamesOf(calls)); if b.name in seen then seen else seen + [b.name])
  {
    assert NamesOf(calls + [b]) == NamesOf(calls) + [b.name];
    assert Init(NamesOf(calls + [b])) == NamesOf(calls);
  }

  lemma NoBlocks(session: Session, r: Record, first: nat, calls: seq<Block>)
    requires forall i :: 0 <= i < |calls| ==> calls[i].ToolUse?
    ensures ToolUses([]) == [] && ToolSpans(session, r, [], first) == [] && calls + [] == calls
  {
  }

  /** The tool spans and the signature of one record's blocks. */
  method EmitToolSpans(session: Session, r: Record, blocks: seq<Block>, spans: seq<Span>, toolIdx: nat,
                       signature: seq<string>, ghost calls: seq<Block>)
    returns (spans': seq<Span>, toolIdx': nat, signature': seq<string>)
    requires forall i :: 0 <= i < |calls| ==> calls[i].ToolUse?
    requires signature == FirstUses(NamesOf(calls)) && toolIdx == |calls|
    ensures forall i :: 0 <= i < |ToolUses(blocks)| ==> ToolUses(blocks)[i].ToolUse?
    ensures spans' == spans + ToolSpans(session, r, ToolUses(blocks), toolIdx + 1)
    ensures toolIdx' == toolIdx + |ToolUses(blocks)|
    ensures signature' == FirstUses(NamesOf(calls + ToolUses(blocks)))
  {
    hide *;
    spans', toolIdx', signature' := spans, toolIdx, signature;
    NoBlocks(session, r, toolIdx + 1, calls);
    for j := 0 to |blocks|
      invariant forall i :: 0 <= i < |ToolUses(blocks[..j])| ==> ToolUses(blocks[..j])[i].ToolUse?
      invariant spans' == spans + ToolSpans(session, r, ToolUses(blocks[..j]), toolIdx + 1)
      invariant toolIdx' == toolIdx + |ToolUses(blocks[..j])|
      invariant signature' == FirstUses(NamesOf(calls + ToolUses(blocks[..j])))
    {
      var b := blocks[j];
      OneMoreBlock(session, r, blocks, j, toolIdx + 1, calls);
      if b.ToolUse? {
        toolIdx' := toolIdx' + 1;
        if b.name !in signature' {
          signature' := signature' + [b.name];
        }
        spans' := spans' + [ToolSpan(session, r, b, toolIdx')];
      }
    }
    assert blocks[..|blocks|] == blocks;
  }

  /** Where the main loop stands after some records. */
  datatype Progress = Progress(
    spans: seq<Span>, toolSignature: seq<string>, toolIdx: nat, stepIdx: nat,
    inTokens: nat, outTokens: nat, models: seq<string>, finalText: string, lastTs: string)

  ghost predicate Reached(p: Progress, session: Session, root: Span, records: seq<Record>) {
    && p.spans == [root] + BodySpans(session, records)
    && (forall i :: 0 <= i < |ToolCalls(records)| ==> ToolCalls(records)[i].ToolUse?)
    && p.toolSignature == FirstUses(NamesOf(ToolCalls(records)))
    && p.toolIdx == |ToolCalls(records)| && p.stepIdx == |Steps(records)|
    && p.inTokens == SumInput(records) && p.outTokens == SumOutput(records)
    && p.models == ModelsSeen(records)
    && p.finalText == FinalText(records)
    && p.lastTs == LastTimestamp(records, session.rootTs)
  }

  lemma OneMore(records: seq<Record>, r: Record)
    ensures Init(records + [r]) == records && Last(records + [r]) == r
  {
  }

  /** How the counts grow with one more record. */
  lemma GrowTotals(session: Session, records: seq<Record>, r: Record)
    ensures ToolCalls(records + [r]) == ToolCalls(records) + if IsTurn(r) then ToolUses(r.content.blocks) else []
    ensures Steps(records + [r]) == Steps(records) + if IsStep(r) then [r] else []
    ensures FinalText(records + [r]) == if IsStep(r) then AsText(r.content) else FinalText(records)
  {
    hide ToolUses, IsStep, AsText;
    OneMore(records, r);
  }

  lemma GrowMeta(session: Session, records: seq<Record>, r: Record)
    ensures var talks := r.kind == "assistant"; var all := records + [r];
      && SumInput(all) == SumInput(records) + (if talks then r.inputTokens else 0)
      && SumOutput(all) == SumOutput(records) + (if talks then r.outputTokens else 0)
      && LastTimestamp(all, session.rootTs) ==
           (if talks && r.timestamp.Some? then r.timestamp.value else LastTimestamp(records, session.rootTs))
      && ModelsSeen(all) ==
           (if talks && RealModel(r).Some? && RealModel(r).value !in ModelsSeen(records)
            then ModelsSeen(records) + [RealModel(r).value] else ModelsSeen(records))
  {
    hide RealModel;
    OneMore(records, r);
  }

  lemma GrowSpans(session: Session, records: seq<Record>, r: Record)
    ensures BodySpans(session, records + [r]) ==
            BodySpans(session, records) + RecordSpans(session, r, |Steps(records)|, |ToolCalls(records)|)
  {
    hide RecordSpans, Steps, ToolCalls;
    OneMore(records, r);
  }

  /** What one record does to the spans, the counts and the text. */
  ghost predicate Moved(before: Progress, p: Progress, session: Session, records: seq<Record>, r: Record) {
    && (forall i :: 0 <= i < |ToolCalls(records)| ==> ToolCalls(records)[i].ToolUse?)
    && (forall i :: 0 <= i < |ToolCalls(records + [r])| ==> ToolCalls(records + [r])[i].ToolUse?)
    && p.spans == before.spans + RecordSpans(session, r, |Steps(records)|, |ToolCalls(records)|)
    && p.toolSignature == FirstUses(NamesOf(ToolCalls(records + [r])))
    && p.toolIdx == before.toolIdx + (if IsTurn(r) then |ToolUses(r.content.blocks)| else 0)
    && p.stepIdx == before.stepIdx + (if IsStep(r) then 1 else 0)
    && p.finalText == if IsStep(r) then AsText(r.content) else before.finalText
  }

  /** What it does to the totals, the models and the time. */
  predicate Counted(before: Progress, p: Progress, r: Record) {
    var talks := r.kind == "assistant";
    && p.inTokens == before.inTokens + (if talks then r.inputTokens else 0)
    && p.outTokens == before.outTokens + (if talks then r.outputTokens else 0)
    && p.lastTs == (if talks && r.timestamp.Some? then r.timestamp.value else before.lastTs)
    && p.models == (if talks && RealModel(r).Some? && RealModel(r).value !in before.models
                    then before.models + [RealModel(r).value] else before.models)
  }

  lemma ReachedNext(session: Session, root: Span, records: seq<Record>, r: Record, before: Progress, p: Progress)
    requires Reached(before, session, root, records)
    requires Moved(before, p, session, records, r) && Counted(before, p, r)
    ensures Reached(p, session, root, records + [r])
  {
    GrowTotals(session, records, r);
    GrowMeta(session, records, r);
    GrowSpans(session, records, r);
    hide AsText, BodySpans, ToolCalls, Steps, SumInput, SumOutput, ModelsSeen, FinalText, LastTimestamp,
      FirstUses, ToolUses, RealModel, NamesOf, IsStep, IsTurn, RecordSpans;
    var more := RecordSpans(session, r, |Steps(records)|, |ToolCalls(records)|);
    assert before.spans + more == [root] + (BodySpans(session, records) + more);
  }

  /** The spans of a record that is a turn: its text, if any, then its tool calls. */
  lemma TurnSpans(session: Session, r: Record, steps: nat, tools: nat)
    requires IsTurn(r)
    ensures var uses := ToolUses(r.content.blocks); forall i :: 0 <= i < |uses| ==> uses[i].ToolUse?
    ensures RecordSpans(session, r, steps, tools) ==
      (if IsStep(r) then [StepSpan(session, r, steps + 1)] else []) +
      ToolSpans(session, r, ToolUses(r.content.blocks), tools + 1)
  {
    ToolUsesAreToolUses(r.content.blocks);
    hide StepSpan, ToolSpans, ToolUses, IsStep;
  }

  lemma NoTurn(session: Session, records: seq<Record>, r: Record, before: Progress, p: Progress)
    requires !IsTurn(r)
    requires (forall i :: 0 <= i < |ToolCalls(records)| ==> ToolCalls(records)[i].ToolUse?)
      && before.toolSignature == FirstUses(NamesOf(ToolCalls(records)))
    requires p.spans == before.spans && p.toolSignature == before.toolSignature && p.toolIdx == before.toolIdx
      && p.stepIdx == before.stepIdx && p.finalText == before.finalText
    ensures Moved(before, p, session, records, r)
  {
    GrowTotals(session, records, r);
    hide StepSpan, ToolSpans, ToolUses, AsText, HasText, ToolCalls, Steps, NamesOf, FirstUses;
    assert ToolCalls(records) + [] == ToolCalls(records);
  }

  /** The model, the tokens and the time of an assistant record. */
  method CountRecord(r: Record, before: Progress) returns (p: Progress)
    requires r.kind == "assistant"
    ensures Counted(before, p, r)
    ensures p.spans == before.spans && p.toolSignature == before.toolSignature && p.toolIdx == before.toolIdx
      && p.stepIdx == before.stepIdx && p.finalText == before.finalText
  {
    hide RealModel;
    p := before;
    if RealModel(r).Some? && RealModel(r).value !in p.models {
      p := p.(models := p.models + [RealModel(r).value]);
    }
    p := p.(inTokens := p.inTokens + r.inputTokens, outTokens := p.outTokens + r.outputTokens);
    if r.timestamp.Some? {
      p := p.(lastTs := r.timestamp.value);
    }
  }

  /** The text of a record with blocks, and its tool calls. */
  method EmitTurn(session: Session, ghost records: seq<Record>, r: Record, before: Progress) returns (p: Progress)
    requires IsTurn(r) && forall i :: 0 <= i < |ToolCalls(records)| ==> ToolCalls(records)[i].ToolUse?
    requires before.toolSignature == FirstUses(NamesOf(ToolCalls(records)))
    requires before.toolIdx == |ToolCalls(records)| && before.stepIdx == |Steps(records)|
    ensures Moved(before, p, session, records, r)
    ensures p.inTokens == before.inTokens && p.outTokens == before.outTokens && p.models == before.models && p.lastTs == before.lastTs
  {
    hide *;
    TurnSpans(session, r, |Steps(records)|, |ToolCalls(records)|);
    p := before;
    var text := AsText(r.content);
    StepIsText(r);
    if HasText(text) {
      p := p.(finalText := text, stepIdx := p.stepIdx + 1);
      p := p.(spans := p.spans + [StepSpan(session, r, p.stepIdx)]);
    }
    var spans, toolIdx, toolSignature :=
      EmitToolSpans(session, r, r.content.blocks, p.spans, p.toolIdx, p.toolSignature, ToolCalls(records));
    p := p.(spans := spans, toolIdx := toolIdx, toolSignature := toolSignature);
    TurnMoved(session, records, r, before, p);
  }

  lemma StepIsText(r: Record)
    requires IsTurn(r)
    ensures r.content.Blocks? && (IsStep(r) <==> HasText(AsText(r.content)))
  {
    hide HasText, AsText;
  }

  lemma TurnMoved(session: Session, records: seq<Record>, r: Record, before: Progress, p: Progress)
    requires IsTurn(r) && forall i :: 0 <= i < |ToolCalls(records)| ==> ToolCalls(records)[i].ToolUse?
    requires var uses := ToolUses(r.content.blocks); forall i :: 0 <= i < |uses| ==> uses[i].ToolUse?
    requires before.stepIdx == |Steps(records)| && before.toolIdx == |ToolCalls(records)|
    requires p.spans == (if IsStep(r) then before.spans + [StepSpan(session, r, before.stepIdx + 1)] else before.spans)
      + ToolSpans(session, r, ToolUses(r.content.blocks), before.toolIdx + 1)
    requires p.toolIdx == before.toolIdx + |ToolUses(r.content.blocks)|
    requires p.toolSignature == FirstUses(NamesOf(ToolCalls(records) + ToolUses(r.content.blocks)))
    requires p.stepIdx == before.stepIdx + (if IsStep(r) then 1 else 0)
    requires p.finalText == if IsStep(r) then AsText(r.content) else before.finalText
    ensures Moved(before, p, session, records, r)
  {
    GrowTotals(session, records, r);
    ToolCallsAreToolUses(records + [r]);
    TurnSpans(session, r, |Steps(records)|, |ToolCalls(records)|);
    hide RecordSpans, AsText, HasText, ToolCalls, Steps, FirstUses, ToolUses, StepSpan, ToolSpans, NamesOf, IsStep, IsTurn;
    var head := if IsStep(r) then [StepSpan(session, r, before.stepIdx + 1)] else [];
    Regroup(before.spans, head, ToolSpans(session, r, ToolUses(r.content.blocks), before.toolIdx + 1));
  }

  lemma Regroup(a: seq<Span>, b: seq<Span>, c: seq<Span>)
    ensures a + b + c == a + (b + c) && a + [] == a && [] + c == c
  {
  }

  /** A record of the session. */
  method ConvertRecord(session: Session, ghost root: Span, ghost records: seq<Record>, r: Record, before: Progress)
    returns (p: Progress)
    requires Reached(before, session, root, records)
    ensures Reached(p, session, root, records + [r])
  {
    hide Moved, RealModel, AsText, HasText, BodySpans, ToolCalls, Steps, SumInput, SumOutput, ModelsSeen, FinalText,
      LastTimestamp, FirstUses, NamesOf;
    p := before;
    if r.kind == "assistant" {
      p := CountRecord(r, p);
      if r.content.Blocks? {
        ghost var counted := p;
        p := EmitTurn(session, records, r, p);
        MovedAlike(counted, before, p, session, records, r);
      } else {
        NoTurn(session, records, r, before, p);
      }
    } else {
      NoTurn(session, records, r, before, p);
    }
    ReachedNext(session, root, records, r, before, p);
  }

  lemma MovedAlike(a: Progress, b: Progress, p: Progress, session: Session, records: seq<Record>, r: Record)
    requires Moved(a, p, session, records, r)
    requires a.spans == b.spans && a.toolIdx == b.toolIdx && a.stepIdx == b.stepIdx && a.finalText == b.finalText
    ensures Moved(b, p, session, records, r)
  {
    hide RecordSpans, ToolCalls, Steps, IsStep, IsTurn, AsText, FirstUses, NamesOf, ToolUses;
  }

  method SessionToSpans(records: seq<Record>, traceId: string) returns (c: Conversion)
    ensures c.spans == ScrubSpans(RawSpans(records, traceId))
    ensures c.toolCalls == |ToolCalls(records)| && c.llmCalls == |Steps(records)|
    ensures forall i :: 0 <= i < |ToolCalls(records)| ==> ToolCalls(records)[i].ToolUse?
    ensures c.toolSignature == FirstUses(NamesOf(ToolCalls(records)))
    ensures c.hasReference <==> HasText(FinalText(records))
    ensures c.models == ModelsSeen(records)
    ensures IsConversion(records, traceId, c)
  {
    hide IsConversion, Safe, Digits, Scrub, HasText, AsText, RootSpan, ScrubSpan, RecordSpans, Results, FirstTimestamp, Prompt;
    var prompt := FindPrompt(records);
    var results := CollectResults(records);
    var rootTs := FindFirstTimestamp(records);
    var session := Session(traceId, rootTs, results);
    var root := RootSpan(session, prompt);
    var p := Progress([root], [], 0, 0, 0, 0, [], "", rootTs);
    assert Reached(p, session, root, records[..0]);
    for i := 0 to |records|
      invariant Reached(p, session, root, records[..i])
    {
      hide Reached;
      p := ConvertRecord(session, root, records[..i], records[i], p);
      assert records[..i + 1] == records[..i] + [records[i]];
    }
    assert records[..|records|] == records;
    var chat := ChatOf(session, p);
    c := Conversion(ScrubSpans(p.spans + [chat]), p.toolSignature, p.toolIdx, p.stepIdx, HasText(p.finalText), p.models);
    ConversionIs(records, traceId, c);
  }

  function ChatOf(session: Session, p: Progress): Span {
    Span(session.traceId, ChatId(session.traceId), Some(RootId(session.traceId)), "chat",
         if p.models == [] then None else Some(p.models[0]), Some(Usage(p.inTokens, p.outTokens)),
         [Field("gen_ai.completion", Str(Safe(p.finalText, TEXT_CAP)))], p.lastTs)
  }
}
