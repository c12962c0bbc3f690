/** One session transcript to one trace: a root span, a span for every
    text-producing model call and every tool call in the order they happened,
    and a chat span that carries the totals. */
module Transcript {
  import opened Text
  import opened Decimal
  import opened Scrubber
  import opened Truncation
  import opened Payload
  import opened Wrappers

  /** A content block. Arguments and results are given as the text the converter
      emits for them: strings as they are, anything else as serialised. */
  datatype Block =
    | TextBlock(text: string)
    | ToolUse(id: Option<string>, name: string, args: string)
    | ToolResult(toolUseId: string, result: string)
    | OtherBlock

  datatype Content = Missing | Plain(text: string) | Blocks(blocks: seq<Block>)

  datatype Record = Record(
    kind: string, timestamp: Option<string>, model: Option<string>,
    content: Content, inputTokens: nat, outputTokens: nat)

  datatype Usage = Usage(input: nat, output: nat)

  datatype Span = Span(
    traceId: string, spanId: string, parentId: Option<string>, name: string,
    model: Option<string>, usage: Option<Usage>, attributes: seq<Field>, ts: string)

  datatype Conversion = Conversion(
    spans: seq<Span>, toolSignature: seq<string>, toolCalls: nat, llmCalls: nat,
    hasReference: bool, models: seq<string>)

  const TOOL_PAYLOAD_CAP := 1500
  const TEXT_CAP := 8000
  const EPOCH := "1970-01-01T00:00:00.000Z"

  // ----- reading a record -----

  /** `t.trim() !== ''` */
  predicate HasText(t: string) {
    exists i | 0 <= i < |t| :: !IsSpace(t[i])
  }

  function Texts(blocks: seq<Block>): seq<string> {
    if blocks == [] then []
    else (if blocks[0].TextBlock? then [blocks[0].text] else []) + Texts(blocks[1..])
  }

  function JoinLines(lines: seq<string>): string {
    if lines == [] then "" else if |lines| == 1 then lines[0] else lines[0] + "\n" + JoinLines(lines[1..])
  }

  function AsText(content: Content): string {
    match content
    case Missing => ""
    case Plain(text) => text
    case Blocks(blocks) => JoinLines(Texts(blocks))
  }

  predicate IsTurn(r: Record) {
    r.kind == "assistant" && r.content.Blocks?
  }

  /** A model call that produced text worth judging. */
  predicate IsStep(r: Record) {
    IsTurn(r) && HasText(AsText(r.content))
  }

  function RealModel(r: Record): Option<string> {
    if r.model == Some("<synthetic>") then None else r.model
  }

  // ----- what a session amounts to, prefix by prefix -----

  function Init<T>(s: seq<T>): seq<T>
    requires s != []
  {
    s[..|s| - 1]
  }

  function Last<T>(s: seq<T>): T
    requires s != []
  {
    s[|s| - 1]
  }

  function ToolUses(blocks: seq<Block>): seq<Block> {
    if blocks == [] then []
    else ToolUses(Init(blocks)) + (if Last(blocks).ToolUse? then [Last(blocks)] else [])
  }

  /** Every tool call of the session, in order. */
  function ToolCalls(records: seq<Record>): seq<Block> {
    if records == [] then []
    else ToolCalls(Init(records)) + (if IsTurn(Last(records)) then ToolUses(Last(records).content.blocks) else [])
  }

  /** Every text-producing model call, in order. */
  function Steps(records: seq<Record>): seq<Record> {
    if records == [] then [] else Steps(Init(records)) + (if IsStep(Last(records)) then [Last(records)] else [])
  }

  function SumInput(records: seq<Record>): nat {
    if records == [] then 0
    else SumInput(Init(records)) + if Last(records).kind == "assistant" then Last(records).inputTokens else 0
  }

  function SumOutput(records: seq<Record>): nat {
    if records == [] then 0
    else SumOutput(Init(records)) + if Last(records).kind == "assistant" then Last(records).outputTokens else 0
  }

  function FirstUses(names: seq<string>): seq<string> {
    if names == [] then []
    else var seen := FirstUses(Init(names)); if Last(names) in seen then seen else seen + [Last(names)]
  }

  function NamesOf(calls: seq<Block>): (names: seq<string>)
    requires forall i :: 0 <= i < |calls| ==> calls[i].ToolUse?
    ensures |names| == |calls|
  {
    seq(|calls|, i requires 0 <= i < |calls| => calls[i].name)
  }

  function ModelsSeen(records: seq<Record>): seq<string> {
    if records == [] then []
    else
      var seen := ModelsSeen(Init(records));
      if Last(records).kind != "assistant" || RealModel(Last(records)).None? || RealModel(Last(records)).value in seen then seen
      else seen + [RealModel(Last(records)).value]
  }

  function LastTimestamp(records: seq<Record>, rootTs: string): string {
    if records == [] then rootTs
    else if Last(records).kind == "assistant" && Last(records).timestamp.Some? then Last(records).timestamp.value
    else LastTimestamp(Init(records), rootTs)
  }

  function FirstTimestamp(records: seq<Record>): string {
    if records == [] then EPOCH
    else if records[0].timestamp.Some? then records[0].timestamp.value
    else FirstTimestamp(records[1..])
  }

  /** The first user record that carries text. */
  function Prompt(records: seq<Record>): string {
    if records == [] then ""
    else if records[0].kind == "user" && HasText(AsText(records[0].content)) then AsText(records[0].content)
    else Prompt(records[1..])
  }

  function BlockResults(blocks: seq<Block>, results: map<string, string>): map<string, string> {
    if blocks == [] then results
    else
      var before := BlockResults(Init(blocks), results);
      if Last(blocks).ToolResult? then before[Last(blocks).toolUseId := Last(blocks).result] else before
  }

  /** Tool results by the id of the call they answer; a later result replaces an earlier one. */
  function Results(records: seq<Record>): map<string, string> {
    if records == [] then map[]
    else
      var before := Results(Init(records));
      if Last(records).content.Blocks? then BlockResults(Last(records).content.blocks, before) else before
  }

  // ----- spans -----

  datatype Session = Session(traceId: string, rootTs: string, results: map<string, string>)

  function RootId(traceId: string): string { traceId + "_root" }
  function StepId(traceId: string, k: nat): string { traceId + "_s" + Digits(k) }
  function ToolId(traceId: string, k: nat): string { traceId + "_t" + Digits(k) }
  function ChatId(traceId: string): string { traceId + "_chat" }

  function RecordTs(session: Session, r: Record): string {
    if r.timestamp.Some? then r.timestamp.value else session.rootTs
  }

  function RootSpan(session: Session, prompt: string): Span {
    Span(session.traceId, RootId(session.traceId), None, "agent.root", None, None,
         [Field("gen_ai.prompt", Str(Safe(prompt, TEXT_CAP)))], session.rootTs)
  }

  function StepSpan(session: Session, r: Record, k: nat): Span {
    Span(session.traceId, StepId(session.traceId, k), Some(RootId(session.traceId)), "llm.call",
         RealModel(r), Some(Usage(r.inputTokens, r.outputTokens)),
         [Field("gen_ai.operation.name", Str("llm_call")),
          Field("gen_ai.completion", Str(Safe(AsText(r.content), TEXT_CAP))),
          Field("potion.step_index", Other(Digits(k)))],
         RecordTs(session, r))
  }

  function ToolSpan(session: Session, r: Record, call: Block, k: nat): Span
    requires call.ToolUse?
  {
    Span(session.traceId, ToolId(session.traceId, k), Some(RootId(session.traceId)), "tool." + call.name, None, None,
         [Field("gen_ai.operation.name", Str("execute_tool")),
          Field("tool.name", Str(call.name)),
          Field("tool.args", Str(Safe(call.args, TOOL_PAYLOAD_CAP)))] +
         (if call.id.Some? && call.id.value in session.results then
            [Field("tool.result", Str(Safe(session.results[call.id.value], TOOL_PAYLOAD_CAP)))]
          else []),
         RecordTs(session, r))
  }

  function ToolSpans(session: Session, r: Record, calls: seq<Block>, first: nat): (spans: seq<Span>)
    requires forall i :: 0 <= i < |calls| ==> calls[i].ToolUse?
    ensures |spans| == |calls|
  {
    seq(|calls|, i requires 0 <= i < |calls| => ToolSpan(session, r, calls[i], first + i))
  }

  lemma {:induction false} ToolUsesAreToolUses(blocks: seq<Block>)
    ensures forall i :: 0 <= i < |ToolUses(blocks)| ==> ToolUses(blocks)[i].ToolUse?
    decreases |blocks|
  {
    if blocks != [] {
      ToolUsesAreToolUses(Init(blocks));
    }
  }

  /** The spans of one record: its text first, then its tool calls. */
  function RecordSpans(session: Session, r: Record, steps: nat, tools: nat): seq<Span> {
    if !IsTurn(r) then []
    else
      ToolUsesAreToolUses(r.content.blocks);
      (if IsStep(r) then [StepSpan(session, r, steps + 1)] else []) +
      ToolSpans(session, r, ToolUses(r.content.blocks), tools + 1)
  }

  /** The spans between root and chat. */
  function BodySpans(session: Session, records: seq<Record>): seq<Span> {
    if records == [] then []
    else
      BodySpans(session, Init(records)) +
      RecordSpans(session, Last(records), |Steps(Init(records))|, |ToolCalls(Init(records))|)
  }

  function FinalText(records: seq<Record>): string {
    if Steps(records) == [] then "" else AsText(Last(Steps(records)).content)
  }

  function ChatSpan(session: Session, records: seq<Record>): Span {
    Span(session.traceId, ChatId(session.traceId), Some(RootId(session.traceId)), "chat",
         if ModelsSeen(records) == [] then None else Some(ModelsSeen(records)[0]),
         Some(Usage(SumInput(records), SumOutput(records))),
         [Field("gen_ai.completion", Str(Safe(FinalText(records), TEXT_CAP)))],
         LastTimestamp(records, session.rootTs))
  }

  function SessionOf(records: seq<Record>, traceId: string): Session {
    Session(traceId, FirstTimestamp(records), Results(records))
  }

  /** Every string of a span is scrubbed once more before it is emitted. */
  function ScrubSpan(s: Span): Span {
    Span(Scrub(s.traceId), Scrub(s.spanId), ScrubOption(s.parentId), Scrub(s.name), ScrubOption(s.model),
         s.usage, ScrubFields(s.attributes), Scrub(s.ts))
  }

  function ScrubOption(o: Option<string>): Option<string> {
    if o.Some? then Some(Scrub(o.value)) else None
  }

  function ScrubSpans(spans: seq<Span>): (scrubbed: seq<Span>)
    ensures |scrubbed| == |spans| && forall i :: 0 <= i < |spans| ==> scrubbed[i] == ScrubSpan(spans[i])
  {
    seq(|spans|, i requires 0 <= i < |spans| => ScrubSpan(spans[i]))
  }

  /** The spans before the second scrub. */
  function RawSpans(records: seq<Record>, traceId: string): seq<Span> {
    var session := SessionOf(records, traceId);
    [RootSpan(session, Prompt(records))] + BodySpans(session, records) + [ChatSpan(session, records)]
  }
}
