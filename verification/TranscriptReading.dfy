/** What the converter's passes over the records pick out, said without the passes. */
module TranscriptReading {
  import opened Text
  import opened Scrubber
  import opened Truncation
  import opened Payload
  import opened Transcript
  import opened TranscriptLaws
  import opened Wrappers

  // ----- the prompt and the two timestamps -----

  predicate IsPrompt(r: Record) {
    r.kind == "user" && HasText(AsText(r.content))
  }

  ghost predicate IsFirstPrompt(records: seq<Record>, i: nat) {
    i < |records| && IsPrompt(records[i]) && forall j :: 0 <= j < i ==> !IsPrompt(records[j])
  }

  /** The text of the first user record that has text, and empty without one. */
  ghost predicate IsPromptOf(records: seq<Record>, prompt: string) {
    || (exists i: nat :: IsFirstPrompt(records, i) && prompt == AsText(records[i].content))
    || ((forall i :: 0 <= i < |records| ==> !IsPrompt(records[i])) && prompt == "")
  }

  lemma {:induction false} PromptIsFirst(records: seq<Record>)
    ensures IsPromptOf(records, Prompt(records))
  {
    hide IsPrompt;
    if records != [] {
      if IsPrompt(records[0]) {
        PromptFound(records);
        assert IsFirstPrompt(records, 0);
      } else {
        PromptFound(records);
        PromptIsFirst(records[1..]);
        hide Prompt;
        if i: nat :| IsFirstPrompt(records[1..], i) && Prompt(records[1..]) == AsText(records[1..][i].content) {
          FirstPromptShifts(records, i);
        } else {
          assert forall i :: 0 < i < |records| ==> records[i] == records[1..][i - 1];
        }
      }
    }
  }

  lemma PromptFound(records: seq<Record>)
    requires records != []
    ensures Prompt(records) == if IsPrompt(records[0]) then AsText(records[0].content) else Prompt(records[1..])
  {
  }

  lemma FirstPromptShifts(records: seq<Record>, i: nat)
    requires records != [] && !IsPrompt(records[0])
    ensures IsFirstPrompt(records, i + 1) <==> IsFirstPrompt(records[1..], i)
  {
    hide IsPrompt;
    if IsFirstPrompt(records[1..], i) {
      forall j | 0 <= j < i + 1 ensures !IsPrompt(records[j]) {
        assert j > 0 ==> records[j] == records[1..][j - 1];
      }
    }
    if IsFirstPrompt(records, i + 1) {
      forall j | 0 <= j < i ensures !IsPrompt(records[1..][j]) {
        assert records[1..][j] == records[j + 1];
      }
    }
  }

  ghost predicate IsFirstStamp(records: seq<Record>, i: nat) {
    i < |records| && records[i].timestamp.Some? && forall j :: 0 <= j < i ==> records[j].timestamp.None?
  }

  /** The first timestamp there is, and the epoch without one. */
  ghost predicate IsRootTs(records: seq<Record>, ts: string) {
    || (exists i: nat :: IsFirstStamp(records, i) && ts == records[i].timestamp.value)
    || ((forall i :: 0 <= i < |records| ==> records[i].timestamp.None?) && ts == "1970-01-01T00:00:00.000Z")
  }

  lemma {:induction false} FirstTimestampIsFirst(records: seq<Record>)
    ensures IsRootTs(records, FirstTimestamp(records))
  {
    if records != [] {
      if records[0].timestamp.Some? {
        assert IsFirstStamp(records, 0);
      } else {
        FirstTimestampIsFirst(records[1..]);
        if i: nat :| IsFirstStamp(records[1..], i) && FirstTimestamp(records[1..]) == records[1..][i].timestamp.value {
          assert IsFirstStamp(records, i + 1);
        }
      }
    }
  }

  predicate IsStamped(r: Record) {
    r.kind == "assistant" && r.timestamp.Some?
  }

  ghost predicate IsLastStamp(records: seq<Record>, i: nat) {
    i < |records| && IsStamped(records[i]) && forall j :: i < j < |records| ==> !IsStamped(records[j])
  }

  /** The chat span ends at the last timestamp of an assistant record, and at the root time without one. */
  lemma {:induction false} LastTimestampIsLast(records: seq<Record>, rootTs: string)
    ensures (exists i: nat :: IsLastStamp(records, i) && records[i].timestamp == Some(LastTimestamp(records, rootTs)))
      || ((forall i :: 0 <= i < |records| ==> !IsStamped(records[i])) && LastTimestamp(records, rootTs) == rootTs)
    decreases |records|
  {
    if records != [] {
      var n := |records| - 1;
      var front := Init(records);
      if IsStamped(records[n]) {
        assert IsLastStamp(records, n);
      } else {
        LastTimestampIsLast(front, rootTs);
        assert LastTimestamp(records, rootTs) == LastTimestamp(front, rootTs);
        hide LastTimestamp, IsStamped;
        assert forall i :: 0 <= i < n ==> records[i] == front[i];
        if i: nat :| IsLastStamp(front, i) && front[i].timestamp == Some(LastTimestamp(front, rootTs)) {
          assert IsLastStamp(records, i);
        }
      }
    }
  }

  // ----- the models -----

  /** The record names a real model. */
  predicate Names(r: Record, model: string) {
    r.kind == "assistant" && r.model == Some(model) && model != "<synthetic>"
  }

  /** Some record names `a`, and none up to it names `b`. */
  ghost predicate NamedBefore(records: seq<Record>, a: string, b: string) {
    exists i :: 0 <= i < |records| && Names(records[i], a) && forall j :: 0 <= j <= i ==> !Names(records[j], b)
  }

  /** The models of a conversion are those that assistant records name, `<synthetic>` left out, each once
      and in the order they first appear. */
  ghost predicate AreModels(records: seq<Record>, models: seq<string>) {
    && NoDuplicates(models)
    && (forall model :: model in models <==> exists i :: 0 <= i < |records| && Names(records[i], model))
    && (forall m, n :: 0 <= m < n < |models| ==> NamedBefore(records, models[m], models[n]))
  }

  lemma {:induction false} ModelsSeenAre(records: seq<Record>)
    ensures AreModels(records, ModelsSeen(records))
    decreases |records|
  {
    if records != [] {
      var front, r := Init(records), Last(records);
      ModelsSeenAre(front);
      ModelsNext(records, ModelsSeen(front));
    }
  }

  lemma ModelsNext(records: seq<Record>, seen: seq<string>)
    requires records != [] && AreModels(Init(records), seen)
    ensures AreModels(records, ModelsAfter(seen, Last(records)))
  {
    var front, r := Init(records), Last(records);
    assert records == front + [r];
    var after := ModelsAfter(seen, r);
    forall model ensures model in after <==> exists i :: 0 <= i < |records| && Names(records[i], model) {
      NamedInMore(front, r, model);
    }
    hide Names, NamedBefore;
    forall m, n | 0 <= m < n < |after| ensures NamedBefore(records, after[m], after[n]) {
      assert after[m] in seen && m < |seen|;
      if n < |seen| {
        NamedStays(front, r, seen[m], seen[n]);
      } else {
        NewIsLater(front, r, seen[m], after[n]);
      }
    }
  }

  lemma NamedInMore(front: seq<Record>, r: Record, model: string)
    ensures (exists i :: 0 <= i < |front + [r]| && Names((front + [r])[i], model)) <==>
      Names(r, model) || exists i :: 0 <= i < |front| && Names(front[i], model)
  {
    hide Names;
    var all := front + [r];
    assert forall i :: 0 <= i < |front| ==> all[i] == front[i];
    assert all[|front|] == r;
  }

  lemma NamedStays(front: seq<Record>, r: Record, a: string, b: string)
    requires NamedBefore(front, a, b)
    ensures NamedBefore(front + [r], a, b)
  {
    hide Names;
    var i :| 0 <= i < |front| && Names(front[i], a) && forall j :: 0 <= j <= i ==> !Names(front[j], b);
    assert forall j :: 0 <= j <= i ==> (front + [r])[j] == front[j];
    assert Names((front + [r])[i], a);
  }

  lemma NewIsLater(front: seq<Record>, r: Record, a: string, b: string)
    requires exists i :: 0 <= i < |front| && Names(front[i], a)
    requires !exists i :: 0 <= i < |front| && Names(front[i], b)
    ensures NamedBefore(front + [r], a, b)
  {
    hide Names;
    var i :| 0 <= i < |front| && Names(front[i], a);
    assert forall j :: 0 <= j <= i ==> (front + [r])[j] == front[j];
    assert Names((front + [r])[i], a);
  }

  function ModelsAfter(seen: seq<string>, r: Record): seq<string> {
    if r.kind != "assistant" || RealModel(r).None? || RealModel(r).value in seen then seen
    else seen + [RealModel(r).value]
  }

  // ----- the results -----

  /** The `j`-th block of a block list answers a call. */
  predicate AnswersIn(blocks: seq<Block>, j: nat, id: string) {
    j < |blocks| && blocks[j].ToolResult? && blocks[j].toolUseId == id
  }

  ghost predicate IsLastAnswerIn(blocks: seq<Block>, j: nat, id: string) {
    AnswersIn(blocks, j, id) && forall k :: j < k < |blocks| ==> !AnswersIn(blocks, k, id)
  }

  predicate AnswersAt(records: seq<Record>, i: nat, j: nat, id: string) {
    i < |records| && records[i].content.Blocks? && AnswersIn(records[i].content.blocks, j, id)
  }

  ghost predicate Answered(r: Record, id: string) {
    r.content.Blocks? && exists j: nat :: AnswersIn(r.content.blocks, j, id)
  }

  /** The last block of the session that answers a call. */
  ghost predicate IsLastAnswer(records: seq<Record>, i: nat, j: nat, id: string) {
    && AnswersAt(records, i, j, id) && IsLastAnswerIn(records[i].content.blocks, j, id)
    && (forall k :: i < k < |records| ==> !Answered(records[k], id))
  }

  lemma {:induction false} BlockResultsAre(blocks: seq<Block>, before: map<string, string>, id: string)
    ensures var after := BlockResults(blocks, before);
      if exists j: nat :: AnswersIn(blocks, j, id) then
        exists j: nat :: IsLastAnswerIn(blocks, j, id) && id in after && after[id] == blocks[j].result
      else (id in after <==> id in before) && (id in before ==> after[id] == before[id])
    decreases |blocks|
  {
    if blocks != [] {
      var n := |blocks| - 1;
      var front := Init(blocks);
      BlockResultsAre(front, before, id);
      if AnswersIn(blocks, n, id) {
        assert IsLastAnswerIn(blocks, n, id);
      } else {
        forall j: nat ensures AnswersIn(blocks, j, id) <==> AnswersIn(front, j, id) {
        }
        if j: nat :| IsLastAnswerIn(front, j, id) && id in BlockResults(front, before) && BlockResults(front, before)[id] == front[j].result {
          assert IsLastAnswerIn(blocks, j, id);
        }
      }
    }
  }

  /** Every call that some block of the session answers, with the result of the last such block. */
  ghost predicate AreResults(records: seq<Record>, results: map<string, string>) {
    forall id ::
      && (id in results <==> exists i :: 0 <= i < |records| && Answered(records[i], id))
      && (id in results ==>
            exists i: nat, j: nat :: IsLastAnswer(records, i, j, id) && results[id] == records[i].content.blocks[j].result)
  }

  lemma ResultsAreLastAnswers(records: seq<Record>)
    ensures AreResults(records, Results(records))
  {
    hide Results, Answered, IsLastAnswer;
    forall id {
      ResultsAre(records, id);
    }
  }

  lemma {:induction false} ResultsAre(records: seq<Record>, id: string)
    ensures id in Results(records) <==> exists i :: 0 <= i < |records| && Answered(records[i], id)
    ensures id in Results(records) ==>
      exists i: nat, j: nat :: IsLastAnswer(records, i, j, id) && Results(records)[id] == records[i].content.blocks[j].result
    decreases |records|
  {
    if records != [] {
      var n := |records| - 1;
      var front := Init(records);
      ResultsAre(front, id);
      assert forall k :: 0 <= k < n ==> records[k] == front[k];
      if Answered(records[n], id) {
        BlockResultsAre(records[n].content.blocks, Results(front), id);
        var j: nat :| IsLastAnswerIn(records[n].content.blocks, j, id)
          && Results(records)[id] == records[n].content.blocks[j].result;
        assert IsLastAnswer(records, n, j, id);
      } else {
        if records[n].content.Blocks? {
          BlockResultsAre(records[n].content.blocks, Results(front), id);
        }
        if id in Results(front) {
          var i: nat, j: nat :| IsLastAnswer(front, i, j, id) && Results(front)[id] == front[i].content.blocks[j].result;
          assert IsLastAnswer(records, i, j, id);
        }
      }
    }
  }
}
