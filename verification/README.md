# Verification of the Potion scripts, sandbox and dashboard protocols

Dafny 4.11 models of the code at the edges of the Potion repository, with machine-checked proofs of
what that code keeps over every input, every run or every interleaving. `dafny verify dfyconfig.toml`
checks the whole project. Code that changes state step by step is modelled by methods, loops and
classes proved against specification functions; the theorems are about those functions.

| Modules | What they model |
|---|---|
| `Wrappers`, `Text`, `Spelling`, `Strings`, `Decimal` | missing values, characters, `split`/`join`/`sort`/`trim`, numbers as text |
| `SecretPatterns`, `PatternLanguage`, `KeyCleaning`, `AssignmentCleaning`, `Scrubber`, `Expressions`, `LineJoins`, `Settling` | the ten credential patterns as a left-to-right rewriter, a reading of the same expressions with every character spelled out, the proof that later passes never recreate an earlier match, idempotence from a condition on the text, and how many scrubs settle it |
| `Truncation`, `CutVerdict`, `ScrubLimits`, `Payload` | the cut with its marker and placeholder repair, exactly which cuts the verifier reports, where the claims of the comments stop, and scrubbing and searching whole structures |
| `Transcript`, `TranscriptConverter`, `TranscriptReading`, `SessionReading`, `TranscriptLaws`, `SpanIds` | one session transcript turned into one trace, every field of every span by what the records say, and when its span ids stay distinct |
| `SandboxPaths`, `WorkspaceSync`, `LiveProtocol`, `LiveRegistry` | the sandbox: path acceptance against resolution, the snapshot diff and its caps, the live-output registry as a transition system and as objects |
| `SweepBudget`, `Campaigns` | the four spending policies |
| `EvidenceSignature`, `Promotion` | the string that stands for evidence, the refusals, and runs of imports |
| `LensProtocol`, `TraceHeader`, `TurnList` | the debounced request race, the three header readers, the turn list |
| `TrancheSelection`, `AliasSearch`, `CellMerge`, `Chunks` | newest-per-group selection, the fresh-name search, the chunked merge, batching |

## What the proofs say about the code

The central claims hold on all inputs: no key shape survives the scrubber, a cut at any offset leaves
none, every tail of a running execution shows a prefix of what is recorded, the sweep tolerance never
adds up, and the evidence signature decides equality of evidence. Where a comment or an expectation is
not what the code does, the model follows the code, and a concrete input shows it:

- Scrubbing is not idempotent (the comment at `scripts/claude-code-to-traces.ts:121-122` says it is):
  `A_KEY="C_KEY=`, newline, `v"` needs two passes. It is idempotent exactly when in the text that reaches
  the last pass no assignment has a quote that closes only on a line joined by the pass, and the verifier
  reports exactly the other case. On the text itself: it is idempotent whenever behind no assignment that
  opens a quote another runs over a newline, so in particular when none runs over a newline; and on a text
  without key shapes the first condition is exact for the text. Nested joins survive the second pass of
  line 430 as well: `k` scrubs settle every text with `n` newlines if and only if `k > n`.
- A scrubbed string is not safe to cut at any offset for the verifier (lines 94-95): right behind `NAME=`
  the marker reads as a value. A text the verifier is silent on is cut to one it reports exactly when the
  limit severs no placeholder and falls right behind the head of an assignment.
- The placeholder repair also runs on text that was never cut, and there drops everything from a last
  unclosed `<` on; such a text is kept exactly when all its brackets are closed.
- The second pass rewrites span ids too. The ids of a session of fewer than a thousand model and tool calls
  stay distinct exactly when no match reaches into the tail `_root` of its first id, and those of all sessions
  exactly when none reaches into one tail of 21 characters: longer ones all behave like it, shorter ones are
  reached into less. Trace ids made from file names are safe, `pk` is not.
- A tail never says `done`: the flag and the removal are one critical section. An entry is there exactly
  while an execution with its id goes on, over a whole run, if and only if no execution ends while another
  with its id goes on. From the copy on a tail shows the record exactly as long as no output arrives.
- In Python `$` matches before a final newline, so the path `..` followed by a newline is accepted; it
  names a file inside the work directory. Acceptance is decided by the length and the segments alone.
- The caller rebuilds the workspace, as far as the walk looks, exactly when no file it sent was deleted and
  the produced files fit the three caps; a deletion is never reported.
- A leg that throws reports nothing, so money it cost is outside the clamped belt. The account stays within
  the belt whatever the legs do if and only if the due legs, each at the smaller of its cap and the belt, fit
  the belt together; otherwise it passes the belt by at most what the failed legs cost.
- An empty promotion file passes every guard over a fully profiled frontier, and replaced evidence can come
  back two imports later: an import goes through exactly under the conditions of `Promotion.AcceptedIff`.
  Imports that overlap keep the chain good exactly when each would pass its guards again at its commit: of
  any number that pass before any saves, exactly when each document may follow the one saved before it.
- A prompt cut short while a request is in flight is shown the answer to the text that is gone, exactly
  when the request was unanswered then, is answered now, and the answer is a plan or an error with a message
  that is not empty.
- The two TypeScript header readers differ on the key `__proto__`, and only there. The Python reader
  differs from them on the empty key only, exactly when its last blank key starts with `=` and does not
  repeat the value of the last one that does not.

## Model

| member | source | states |
|---|---|---|
| `Expressions.MatchIsLongestReading` | scripts/claude-code-to-traces.ts:44-83 | the matcher of each of the ten patterns finds a match exactly where its expression, with every class, prefix and bound spelled out, has a reading, and the longest |
| `Expressions.SecretNameIff` | scripts/claude-code-to-traces.ts:80 | the name of an assignment is one with something in front of one of the six words, spelled out |
| `Expressions.PassIs` | scripts/claude-code-to-traces.ts:126 | a text is what a pass makes of another exactly when the leftmost longest readings of the expression are exchanged for the placeholder, spelled out, and nothing else is |
| `SecretPatterns.CleanIffNoOccurrence` | scripts/claude-code-to-traces.ts:133-139 | the search is silent exactly when no position of the text starts a match |
| `SecretPatterns.ReplaceKeepsClean` | scripts/claude-code-to-traces.ts:126 | a text without a match passes through unchanged |
| `KeyCleaning.ReplaceLeavesClean` | scripts/claude-code-to-traces.ts:44-83 | any pass leaves no match of its own and recreates none of a key shape that was absent before it, the assignment pass included |
| `KeyCleaning.PatternsAreKeyLike` | scripts/claude-code-to-traces.ts:44-60 | the nine key patterns, with their literal prefixes, lengths and placeholders, meet the conditions that argument rests on |
| `Expressions.ScrubSecrets` | scripts/claude-code-to-traces.ts:123-129 | the loop makes the ten replacements of the table, in its order, and nothing else |
| `Expressions.ScrubIs` | scripts/claude-code-to-traces.ts:123-129 | that determines the scrubbed text |
| `Expressions.FindSecrets` | scripts/claude-code-to-traces.ts:133-139 | the loop reports the names of the table, spelled out and in its order, whose expression has a reading somewhere |
| `Scrubber.ScrubLeavesNoKeys` | scripts/claude-code-to-traces.ts:121-129 | for every text none of the nine key patterns matches the scrubbed text |
| `Scrubber.VerifierOnScrubbed` | scripts/claude-code-to-traces.ts:131-139 | on scrubbed text the verifier reports nothing, or the assignment pattern alone, the latter exactly when the last pass heals a quote |
| `Scrubber.ScrubOfCleanText` | scripts/claude-code-to-traces.ts:121-139 | text the verifier finds nothing in is left alone |
| `Scrubber.ScrubIdempotentIff` | scripts/claude-code-to-traces.ts:121-122 | scrubbing twice is scrubbing once exactly when no quote heals in the text that reaches the last pass |
| `LineJoins.ScrubIdempotentOnOneLineHeads` | scripts/claude-code-to-traces.ts:121-122 | for every text in which no white space around an assignment's `=` holds a newline, scrubbing is idempotent and leaves nothing for the verifier |
| `LineJoins.NotIdempotentNeedsQuoteThenJoin` | scripts/claude-code-to-traces.ts:121-122 | where scrubbing twice differs from scrubbing once, the text has an assignment that opens a quote and behind it one that runs over a newline |
| `LineJoins.ScrubIdempotentIffWithoutKeys` | scripts/claude-code-to-traces.ts:121-122 | on a text without key shapes scrubbing is idempotent exactly when nothing in that text heals |
| `LineJoins.KeyPassKeepsHeads` | scripts/claude-code-to-traces.ts:44-60 | no key pass brings an assignment that runs over a newline into being |
| `LineJoins.HeadsOnOneLineFrom` | scripts/claude-code-to-traces.ts:80 | the condition of the first says of every position that the head of an assignment starting there holds no newline |
| `AssignmentCleaning.QuoteClosesAfter` | scripts/claude-code-to-traces.ts:78-82 | after the pass a quote closes on its line exactly when it closed on the line as joined by the pass |
| `AssignmentCleaning.CleanIffHealingFree` | scripts/claude-code-to-traces.ts:78-82 | the assignment pass leaves no assignment exactly when no quote heals |
| `AssignmentCleaning.FixedIffClean` | scripts/claude-code-to-traces.ts:78-82 | the assignment pass changes every text it matches in, and only those |
| `AssignmentCleaning.NoJoinedLinesNoHealing` | scripts/claude-code-to-traces.ts:78-82 | without an assignment that runs over a newline nothing heals |
| `ScrubLimits.OuterHeals` | scripts/claude-code-to-traces.ts:78-82 | for every pair of names, an assignment whose quote closes behind a second, line-joining assignment heals |
| `ScrubLimits.ScrubIsNotIdempotent` | scripts/claude-code-to-traces.ts:121-122 | a concrete text on which scrubbing twice differs from scrubbing once |
| `Settling.LinesManyScrubsSettle` | scripts/claude-code-to-traces.ts:121-129 | more scrubs than the text has newlines leave a text that another one does not change and the verifier is silent on |
| `Settling.UnsettledSwallows` | scripts/claude-code-to-traces.ts:78-82 | a scrub that leaves an assignment behind has swallowed a newline, and no pass brings one in |
| `ScrubLimits.NestedPass` | scripts/claude-code-to-traces.ts:78-82 | for all lists of secret names, a pass over assignments nested over as many lines rewrites the innermost only |
| `ScrubLimits.RewrittenPass` | scripts/claude-code-to-traces.ts:78-82 | and every later pass makes one assignment of the innermost two |
| `ScrubLimits.NestNeedsEveryLine` | scripts/claude-code-to-traces.ts:426-430 | such a nest is not settled by as many scrubs as it has newlines, and the verifier still reports it then |
| `ScrubLimits.ScrubsSettleIff` | scripts/claude-code-to-traces.ts:426-430 | `k` scrubs settle every text with `n` newlines if and only if `k > n` |
| `ScrubLimits.MarkerReadsAsValue` | scripts/claude-code-to-traces.ts:97-99 | for every secret name, a cut right behind `NAME=` leaves a text the verifier reports |
| `Truncation.SafeIs` | scripts/claude-code-to-traces.ts:97-119 | a text is what `safe` returns exactly when it is the scrubbed text, cut to n characters with an ellipsis and the count if it is longer, and then without an unclosed last bracket |
| `Truncation.ShortTextKeptIff` | scripts/claude-code-to-traces.ts:114-119 | a text within the limit is kept exactly when each `<` is closed further on |
| `Truncation.SeveredPlaceholderIsDropped` | scripts/claude-code-to-traces.ts:101-119 | a cut inside a placeholder takes the text back to exactly that placeholder's `<` |
| `Truncation.CleanCutIsMarked` | scripts/claude-code-to-traces.ts:224-226 | a cut outside every bracket keeps the first n characters and says how many are gone |
| `Truncation.CutLength` | scripts/claude-code-to-traces.ts:224-226 | the result is at most n + 10 + the digits of the count long |
| `Decimal.DigitsCount` | scripts/claude-code-to-traces.ts:225 | a count below ten to the e prints in at most e digits |
| `Truncation.CutKeepsKeysOut` | scripts/claude-code-to-traces.ts:94-99 | if a text has no match of a key pattern, neither has its cut with marker and repair, at any length |
| `CutVerdict.CutPassesVerifierIff` | scripts/claude-code-to-traces.ts:94-119 | a text the verifier is silent on is cut to one it is silent on exactly when the limit does not fall right behind the head of an assignment outside every placeholder |
| `CutVerdict.CleanCutIff` | scripts/claude-code-to-traces.ts:94-119 | the same for the assignment pattern alone |
| `CutVerdict.SafePassesVerifierIff` | scripts/claude-code-to-traces.ts:97-99 | what `safe` makes of a payload without a join behind an open quote is reported exactly when the limit falls right behind a head of the scrubbed text |
| `CutVerdict.EmittedPayloadPasses` | scripts/claude-code-to-traces.ts:424-430 | what is emitted for such a payload passes the verifier wherever the cut falls |
| `Truncation.CutHealsNothing` | scripts/claude-code-to-traces.ts:94-99 | a second pass over any cut of a text without assignments heals nothing |
| `Truncation.EmittedPassesVerifierIff` | scripts/claude-code-to-traces.ts:424-430 | for every payload and limit, what the second pass emits passes the verifier exactly when nothing heals in what `safe` returned |
| `Truncation.EmittedPassesVerifier` | scripts/claude-code-to-traces.ts:424-430 | whenever one pass is enough for the payload, what is emitted after cut and second pass passes the verifier, wherever the cut falls |
| `Payload.PathsLead` | scripts/claude-code-to-traces.ts:152-180 | paths go into every item of an array and every value of an object, and nowhere else, as the walk and the scrubber do |
| `Payload.ScrubDeepAt` | scripts/claude-code-to-traces.ts:169-180 | a scrubbed structure has the same paths, and at the end of each the same node, a string there scrubbed: keys, other values and shape stay |
| `Payload.Walk` | scripts/claude-code-to-traces.ts:152-167 | the walk adds exactly the names the verifier finds in a string that some path into arrays and objects leads to |
| `Payload.VerifierOnScrubbedStructure` | scripts/claude-code-to-traces.ts:141-180 | on a scrubbed structure the verifier finds a name exactly when it is that of assignments and some string of the structure heals |
| `Payload.ScrubbedStructureIsSilent` | scripts/claude-code-to-traces.ts:141-180 | the verifier finds nothing in a scrubbed structure when no string in it holds a join behind an open quote |
| `TranscriptConverter.FindPrompt` | scripts/claude-code-to-traces.ts:301-309 | the loop returns the text of the first user record that has text, with none before it, and the empty text when there is none |
| `TranscriptConverter.CollectResults` | scripts/claude-code-to-traces.ts:312-323 | the loop's map holds a call exactly when some block of the session answers it, with the result of the last such block |
| `TranscriptConverter.FindFirstTimestamp` | scripts/claude-code-to-traces.ts:325-326 | the root time is the first timestamp there is, with none before it, and the epoch when there is none |
| `SessionReading.AsTextIs` | scripts/claude-code-to-traces.ts:228-235 | the text of a record is its plain text, or its text blocks in order with a newline between two |
| `SessionReading.StepSpanIs` | scripts/claude-code-to-traces.ts:356-379 | every field of the span of a model call: ids, the model unless it is `<synthetic>`, its own tokens, its text scrubbed and cut to 8000, its number, and its time or the root time |
| `SessionReading.ToolSpanIs` | scripts/claude-code-to-traces.ts:381-405 | every field of the span of a tool call, with the result of the last block of the session that answers it, scrubbed and cut to 1500, exactly when some block does |
| `TranscriptReading.LastTimestampIsLast` | scripts/claude-code-to-traces.ts:344-353 | the chat span's time is the last timestamp of an assistant record, and the root time without one |
| `TranscriptReading.ModelsSeenAre` | scripts/claude-code-to-traces.ts:342-350 | the models are those that assistant records name, other than `<synthetic>`, each once and in the order of first appearance |
| `TranscriptConverter.EmitToolSpans` | scripts/claude-code-to-traces.ts:381-405 | one span per tool call in call order, and the signature extended by first uses |
| `TranscriptConverter.ConvertRecord` | scripts/claude-code-to-traces.ts:347-406 | one record moves the whole accumulated state to that of the longer prefix |
| `SessionReading.RawSpansAre` | scripts/claude-code-to-traces.ts:328-422 | the spans are the root, one for every text of an assistant record and every tool call in it, in that order and numbered by kind, and the chat with the totals, the first model, the last text and the last time |
| `SessionReading.SignatureIs` | scripts/claude-code-to-traces.ts:381-388 | the signature lists each tool that is called, once, in the order of first use |
| `TranscriptConverter.SessionToSpans` | scripts/claude-code-to-traces.ts:292-437 | the conversion is those spans with every string in them scrubbed again, their counts, the signature, the models, and a reference exactly when some record has a text span |
| `TranscriptLaws.SpanCount` | scripts/claude-code-to-traces.ts:328-422 | 2 + llmCalls + toolCalls spans, root first, chat last, all others children of the root |
| `TranscriptLaws.RawIdsDistinct` | scripts/claude-code-to-traces.ts:328-422 | before the second pass all span ids differ, for every trace id |
| `TranscriptLaws.EmittedIdsDistinct` | scripts/claude-code-to-traces.ts:430-442 | for every trace id that stays inert with an underscore behind it the second pass leaves the ids alone, so the emitted ids differ |
| `TranscriptLaws.FileTraceIdIsInert` | scripts/claude-code-to-traces.ts:440-442 | the trace ids made from file names are such |
| `SpanIds.EmittedIdsDistinctIff` | scripts/claude-code-to-traces.ts:328-430 | the emitted ids of every session differ exactly when no pass swallows the tail of the model call numbered ten to the 18th |
| `SpanIds.ShortSessionIdsDistinctIff` | scripts/claude-code-to-traces.ts:328-430 | the emitted ids of a session with fewer than a thousand model calls and tool calls differ exactly when no pass swallows the tail `_root` |
| `SpanIds.TailSwallowedSeen` | scripts/claude-code-to-traces.ts:44-83 | a tail that is swallowed takes every longer tail with it, and from 21 characters on every shorter one too |
| `SpanIds.InertIsNeverSwallowed` | scripts/claude-code-to-traces.ts:440-442 | a trace id that stays inert with an underscore behind it, as those made from file names do, keeps every tail |
| `SpanIds.EmittedIdsDistinctUnlessSwallowed` | scripts/claude-code-to-traces.ts:328-430 | the emitted ids of one session differ when no tail of its own spans is swallowed |
| `SpanIds.RootAndChatCollideIff` | scripts/claude-code-to-traces.ts:330-430 | root and chat get the same id exactly when some pass matches into the tail `_root`, on the text the passes before it left |
| `SpanIds.StepAndToolCollideIff` | scripts/claude-code-to-traces.ts:366-430 | so do the model call and the tool call of one number, exactly when their tail is swallowed |
| `SpanIds.KeyShapedTraceIdIsSwallowed` | scripts/claude-code-to-traces.ts:430 | trace ids of the shape of a Potion key, `pk` among them, fail that condition |
| `SpanIds.MatchIntoTail` | scripts/claude-code-to-traces.ts:44-83 | a match of any pattern ends before the tail of a span id or takes all of it |
| `TranscriptLaws.KeyShapedTraceIdCollides` | scripts/claude-code-to-traces.ts:430 | for a trace id shaped like a Potion key with the underscore of the tail counted in, `pk` among them, root and chat become one placeholder |
| `TranscriptLaws.BodyUsage` | scripts/claude-code-to-traces.ts:346-406 | between root and chat exactly the model calls report tokens, each its own |
| `TranscriptLaws.StepTokensBounded` | scripts/claude-code-to-traces.ts:351-379 | those tokens add up to at most the totals of the chat span |
| `TranscriptLaws.ReferenceIffSteps` | scripts/claude-code-to-traces.ts:359-434 | there is a reference exactly when some model call produced text |
| `TranscriptLaws.SignatureIsFirstUse` | scripts/claude-code-to-traces.ts:337-387 | the signature lists each tool once, in the order of first use |
| `Chunks.Chunk` | scripts/claude-code-to-traces.ts:453-457 | the batches concatenate to the list, none is empty or too long, and all but the last are full |
| `SandboxPaths.SegmentIs` | deploy/sandbox/sandbox_server.py:109-125 | a segment is let through exactly when it is 1 to 120 of the spelled-out characters, a final newline aside, and none of the three refused names |
| `SandboxPaths.AcceptedIff` | deploy/sandbox/sandbox_server.py:109-127 | acceptance is decided by the length and such segments alone |
| `SandboxPaths.AcceptedResolvesInside` | deploy/sandbox/sandbox_server.py:112-127 | an accepted path resolves, from every base, to the base and exactly its 1 to 12 segments, never leaving the base on the way |
| `SandboxPaths.AcceptedNamesDoNotAlias` | deploy/sandbox/sandbox_server.py:112-127 | different accepted paths lead to different places |
| `SandboxPaths.BeltNeverFires` | deploy/sandbox/sandbox_server.py:164-167 | without links the resolved-prefix check refuses no accepted path |
| `SandboxPaths.FinalNewlineAccepted` | deploy/sandbox/sandbox_server.py:109-126 | a final newline passes the segment test, even behind `..`, and then leads inside |
| `WorkspaceSync.FindProduced` | deploy/sandbox/sandbox_server.py:288-293 | the sorted, duplicate-free list of exactly the names that are new or have another digest, the two scripts apart |
| `WorkspaceSync.Collect` | deploy/sandbox/sandbox_server.py:286-310 | the loop hands back the files its decisions say, notes the dropped ones, and keeps all three caps |
| `WorkspaceSync.EmittedIffFate` | deploy/sandbox/sandbox_server.py:294-310 | a name is handed back, with its content, exactly when its fate is to be emitted |
| `WorkspaceSync.NotedIffCapped` | deploy/sandbox/sandbox_server.py:299-307 | a name is noted on stderr exactly when one of the caps stopped it |
| `WorkspaceSync.FatesAre` | deploy/sandbox/sandbox_server.py:294-310 | when a name is handed back and when it is noted for its size, the total or the number, in bytes and files, given what was handed back before it |
| `WorkspaceSync.FatesPartition` | deploy/sandbox/sandbox_server.py:294-310 | every produced path is emitted, noted or skipped, and never two of these |
| `WorkspaceSync.NothingDroppedWhenAllFits` | deploy/sandbox/sandbox_server.py:294-310 | when all fits, every produced file is handed back in order and nothing is noted |
| `WorkspaceSync.ProducedIffChanged` | deploy/sandbox/sandbox_server.py:184-204 | without a digest collision the produced names are exactly those of new or changed files, the two scripts apart |
| `WorkspaceSync.OverlayAgrees` | deploy/sandbox/sandbox_server.py:286-317 | writing the returned files over the ones sent agrees with the after-state at every path emitted or unchanged |
| `WorkspaceSync.AllEmittedIff` | deploy/sandbox/sandbox_server.py:294-310 | every produced file is handed back exactly when each is a regular file under an accepted name and within the size cap, and together they are within the count and the total |
| `WorkspaceSync.OverlayIsAfterIff` | deploy/sandbox/sandbox_server.py:286-317 | the overlay is the whole after-state exactly when no file sent was deleted and the produced files fit the caps |
| `LiveProtocol.LiveIdIs` | deploy/sandbox/sandbox_server.py:226-231 | an id registers exactly when it is 8 to 64 of the spelled-out characters, a final newline aside |
| `LiveProtocol.TailNeverDone` | deploy/sandbox/sandbox_server.py:274-278 | in every interleaving, repeated ids included, a tail never says done |
| `LiveProtocol.RunGrows` | deploy/sandbox/sandbox_server.py:248-271 | over every run buffers only grow and a record, once made, stays |
| `LiveProtocol.TailShowsPrefixOfRecord` | deploy/sandbox/sandbox_server.py:326-337 | a tail taken while the process runs shows the end, up to 65536 characters, of what a prefix of the output later recorded decodes to |
| `LiveProtocol.TailAfterCopyShowsRecordIff` | deploy/sandbox/sandbox_server.py:267-278 | from the copy on a tail shows the end of the buffers, and they are the record exactly as long as no output was appended after the copy |
| `LiveProtocol.PresentExactlyWhileRunning` | deploy/sandbox/sandbox_server.py:225-278 | with no id in flight twice, an entry is present exactly while its execution is not over |
| `LiveProtocol.ExactIffFresh` | deploy/sandbox/sandbox_server.py:225-278 | a run uses no id twice at once exactly when in all its states every execution is registered, as itself, exactly until it is over |
| `LiveProtocol.PresentIffEndsAlone` | deploy/sandbox/sandbox_server.py:274-278 | over a run every unfinished execution finds its id registered if and only if none ends while another with its id goes on |
| `LiveProtocol.PresentMeansTailed` | deploy/sandbox/sandbox_server.py:326-337 | that is to say a tail finds an entry exactly while some execution with the id is not over |
| `LiveProtocol.SecondUseLosesItsEntry` | deploy/sandbox/sandbox_server.py:230-278 | with an id in flight twice, the first to finish removes the entry of the second |
| `LiveProtocol.LateOutputIsShownNotRecorded` | deploy/sandbox/sandbox_server.py:267-271 | output after the copy shows in a tail and is in no record |
| `LiveRegistry.Registry.constructor` | deploy/sandbox/sandbox_server.py:225-231 | the registry starts empty |
| `LiveRegistry.Registry.Start` | deploy/sandbox/sandbox_server.py:226-231 | registration moves the shared objects by the protocol's start step |
| `LiveRegistry.Registry.Append` | deploy/sandbox/sandbox_server.py:248-254 | a reader's chunk moves them by the append step |
| `LiveRegistry.Registry.CopyOutput` | deploy/sandbox/sandbox_server.py:269-271 | the copy moves them by the copy step and returns what the buffers hold |
| `LiveRegistry.Registry.Finish` | deploy/sandbox/sandbox_server.py:274-278 | the end moves them by the finish step, whoever holds the id |
| `LiveRegistry.Registry.GetTail` | deploy/sandbox/sandbox_server.py:326-341 | the answer is the last 65536 characters of each decoded buffer of the entry with that id, or all, and its flag; nothing for what is no id or has no entry |
| `SweepBudget.RunSweepLoop` | scripts/m1b-sweep.ts:281-322 | outcomes are those of a prefix of the suites, each run with exactly what was left, the total is their sum, and an early stop names the first suite that does not fit; a run that throws was the next that fitted, handed exactly what was left |
| `SweepBudget.ToleranceNeverAccumulates` | scripts/m1b-sweep.ts:151-157 | if no suite costs more than projected, the total stays at most the cap plus one tolerance after any number of suites |
| `SweepBudget.HandedBudgetBoundsTotal` | scripts/m1b-sweep.ts:281-322 | if no run spends more than it is handed, the total never exceeds a non-negative cap |
| `SweepBudget.SweepStaysInBudget` | scripts/m1b-sweep.ts:281-322 | both bounds for the total of a whole sweep |
| `SweepBudget.ToleranceIsReached` | scripts/m1b-sweep.ts:155-157 | for every cap some sweep ends exactly one tolerance above it |
| `SweepBudget.PreflightImpliesCompletion` | scripts/m1b-sweep.ts:368-385 | projections that together fit the cap and are not exceeded never stop the loop early, and the outcomes cover all suites in order |
| `Campaigns.RunCampaign` | scripts/tranche-measure.ts:133-192 | the due legs run in order, each with its own cap or what was left, all of them unless the belt is reached; only a reached belt stops the loop, a failed leg does not |
| `Campaigns.DueAre` | scripts/tranche-measure.ts:133-139 | the due legs are those not excluded, in the order of the plan |
| `Campaigns.ClampedStaysUnderBelt` | scripts/tranche-measure.ts:140-154 | with the clamp the reported total never passes a non-negative belt, for every leg order and pattern of failures |
| `Campaigns.ClampedActualSpend` | scripts/tranche-measure.ts:156-190 | what really left the account passes the belt by at most what the failed legs cost |
| `Campaigns.FreeFailuresStayUnderBelt` | scripts/tranche-measure.ts:156-190 | the account itself stays within the belt when failed legs cost nothing |
| `Campaigns.AccountStaysInBeltIff` | scripts/tranche-measure.ts:133-192 | over every way the legs may behave, the account stays within a positive belt exactly when the due legs, each at the smaller of its cap and the belt, fit it together |
| `Campaigns.FailedLegEscapesBelt` | scripts/tranche-measure.ts:156-190 | two legs that may each take the whole belt do not: a campaign of theirs costs twice the belt |
| `Campaigns.UnclampedOvershootsByLessThanOneCap` | scripts/s6-widen.ts:93-124 | without the clamp the total stays strictly below the belt plus the largest leg cap |
| `Campaigns.UnclampedBoundIsApproached` | scripts/s6-widen.ts:93-124 | for every belt, cap and gap some campaign ends exactly that gap below the bound |
| `Campaigns.FeelClusters` | scripts/step8-live-felt.ts:92-167 | the clusters felt are those with a feasible position, in order, cut short only once the cap is used up |
| `Campaigns.FeasibleAre` | scripts/step8-live-felt.ts:104-138 | feasible are exactly the clusters with a position to feel |
| `Campaigns.ChargeSamples` | scripts/step8-live-felt.ts:146-157 | a cluster is charged the sum over its samples of nothing from the cache or for an error, the logged cost, or all that was left when none is logged |
| `Campaigns.UnresolvedCostLatches` | scripts/step8-live-felt.ts:152-156 | one uncached answer without a resolved cost brings the total to the cap, and its cluster is the last one felt |
| `EvidenceSignature.SignatureDecidesEvidence` | scripts/promote-frontier-guards.ts:47-60 | for parts without their delimiters and non-empty run ids, signatures are equal exactly when the multisets of hash, quality or its absence, and multiset of run ids are |
| `EvidenceSignature.SameEvidenceSameSignature` | scripts/promote-frontier-guards.ts:55-60 | on all inputs the signature ignores the order of points and of run ids |
| `EvidenceSignature.CommaConfuses` | scripts/promote-frontier-guards.ts:57 | a comma in a run id makes different evidence read alike |
| `EvidenceSignature.EmptyRunIdConfuses` | scripts/promote-frontier-guards.ts:57 | so does an empty run id |
| `EvidenceSignature.ColonConfuses` | scripts/promote-frontier-guards.ts:57 | so does a colon in a hash |
| `EvidenceSignature.BarConfuses` | scripts/promote-frontier-guards.ts:57-59 | so does a bar in a run id |
| `Strings.SortEqualIff` | scripts/promote-frontier-guards.ts:57-58 | sorting forgets the order and nothing else |
| `Strings.LeIs` | deploy/sandbox/sandbox_server.py:288-293 | the order of sorted names is the lexicographic one |
| `Strings.TrimIs` | examples/python-triage/triage.py:31 | trimming takes off exactly the white space at both ends, with its characters spelled out |
| `Strings.SplitOfJoin` | scripts/promote-frontier-guards.ts:57-59 | joining parts without the delimiter loses nothing |
| `Promotion.AcceptedIff` | scripts/promote-frontier-guards.ts:159-170 | for every document an import goes through exactly when all points are live and, over a serving frontier, the signature differs, the prices basis is kept or overridden, and full profile coverage is kept or overridden; for clean parts a different signature is different evidence as a multiset |
| `Promotion.RefusalIs` | scripts/promote-frontier-guards.ts:36-170 | which refusal an import meets and what it holds: the first that applies of points that are not live, identical evidence, a changed prices basis and a lost token profile |
| `Promotion.RunKeeps` | scripts/promote-frontier.ts:79-89 | over every run of imports each chain only grows, by consecutive versions of live points whose evidence never repeats the one before, and without an override keeps prices and coverage step by step |
| `Promotion.UnoverriddenRun` | scripts/promote-frontier-guards.ts:93-156 | a run that overrides nothing on a serving chain leaves all its versions on one prices basis and fully profiled from the first that is |
| `Promotion.ReimportRefused` | scripts/promote-frontier-guards.ts:62-69 | the document just accepted, in any order of points and run ids, is refused as identical whatever the overrides |
| `Promotion.ImportIs` | scripts/promote-frontier.ts:67-89 | an import that is not refused adds the next version behind its chain, with the points as they are, and touches no other |
| `Promotion.ExportIs` | scripts/promote-frontier.ts:49-57 | what is exported is the last version of the chain, and it fails when there is none or it has no points |
| `Promotion.ExportThenImport` | scripts/promote-frontier.ts:51-89 | a live frontier travels unchanged to an empty target as version 1, and exports again as the same file |
| `Promotion.EmptyDocAccepted` | scripts/promote-frontier-guards.ts:133-147 | an empty file passes every guard over a fully profiled frontier |
| `Promotion.ReplacedEvidenceReturns` | scripts/promote-frontier-guards.ts:62-69 | the guard sees the serving version only: A, B, A makes three versions |
| `Promotion.InterleavingIsGoodIff` | packages/pareto/src/persistence.ts:86-108 | over every interleaving of guard checks and saves the chains grow by good steps exactly when each import would pass its guards again at its save |
| `Promotion.CommitIsGoodIff` | packages/pareto/src/persistence.ts:86-108 | one save is a good step over what serves then exactly when the guards would still let it through |
| `Promotion.QueueIsGoodIff` | scripts/promote-frontier.ts:67-89 | of any number of imports on one chain that all pass before any saves, each becomes the next version, the first a good step over what served, if anything did, and every other one exactly when signatures differ, prices agree or are overridden, and coverage is kept or overridden against the document saved before it |
| `Promotion.CommitAllSaves` | scripts/promote-frontier.ts:67-89 | saving what waits, first in first out, is a run of the protocol that saves the queue |
| `Promotion.OverlappingImportsGoodIff` | scripts/promote-frontier.ts:67-89 | the case of two imports as a run of checks and saves |
| `Promotion.OverlappingReimport` | scripts/promote-frontier.ts:67-89 | one file imported twice at once mints the same evidence twice in a row, a step no override makes good |
| `Promotion.CheckThenCommitIsImport` | scripts/promote-frontier.ts:67-89 | a check with its save right behind it is an import |
| `LensProtocol.Lens.constructor` | apps/dashboard/components/frontier-lens.tsx:23-30 | the component mounts empty |
| `LensProtocol.Lens.Type` | apps/dashboard/components/frontier-lens.tsx:32-40 | a keystroke clears the timer, and sets a new one or drops what is shown |
| `LensProtocol.Lens.Fire` | apps/dashboard/components/frontier-lens.tsx:40-50 | the timer sends the next request and takes its number |
| `LensProtocol.Lens.Respond` | apps/dashboard/components/frontier-lens.tsx:51-67 | an answer of each kind, a body that is `null` or no JSON among them, changes the whole state as the protocol says |
| `LensProtocol.BusyIffNewestUnanswered` | apps/dashboard/components/frontier-lens.tsx:41-67 | over all orders of events the spinner is on exactly while the newest request is unanswered |
| `LensProtocol.OnlyNewestApplies` | apps/dashboard/components/frontier-lens.tsx:52-66 | only the newest request's answer changes the screen, and applied answers come in strictly increasing request order |
| `LensProtocol.SettledShowsOwnAnswer` | apps/dashboard/components/frontier-lens.tsx:32-73 | with no timer pending and nothing unanswered, a prompt that asks is shown the answer to its own text |
| `LensProtocol.PlanIsSourced` | apps/dashboard/components/frontier-lens.tsx:51-67 | a plan on screen is some request's answer, and every answer applied after it threw |
| `LensProtocol.ShortPromptShowsIff` | apps/dashboard/components/frontier-lens.tsx:35-62 | a prompt too short to ask shows a plan or an error message that is not empty exactly when an answer that shows one was applied since the last keystroke |
| `LensProtocol.StaleAnswerIff` | apps/dashboard/components/frontier-lens.tsx:35-62 | after a prompt is cut short an answer appears exactly when a request was in flight at that keystroke, has been answered since, and the answer is no null plan and no error without a message |
| `LensProtocol.ClearedPromptShowsOldPlan` | apps/dashboard/components/frontier-lens.tsx:35-64 | a run that shows an old plan under a cleared prompt |
| `LensProtocol.ThrownAnswerLeavesOldPlan` | apps/dashboard/components/frontier-lens.tsx:64-66 | a run in which a request that throws leaves the plan of the prompt before it |
| `TraceHeader.ParseIntoRecord` | examples/node-receipt-check/potion-check.ts:26-33 | a key reads as the trimmed text behind the first `=` of the last part with that key in front of it, if something is in front and the key is not `__proto__` |
| `TraceHeader.ParseIntoMap` | apps/dashboard/components/docs-ask.tsx:18-23 | the same for a `Map`, `__proto__` included |
| `TraceHeader.ParseIntoDict` | examples/python-triage/triage.py:25-32 | the same for a Python dictionary, which takes parts with nothing in front as well |
| `TraceHeader.RoundTrip` | examples/node-receipt-check/potion-check.ts:25-33 | writing pairs and reading them back yields the last value of every key, for each reader and every pair it can hold |
| `TraceHeader.ReadableIffComesBack` | examples/node-receipt-check/potion-check.ts:25-33 | the condition of the round trip is exact: a pair with a key comes back from some header exactly when it meets it |
| `TraceHeader.TypeScriptReadersAgreeIff` | apps/dashboard/components/docs-ask.tsx:18-23 | on every header the two TypeScript readers agree except on `__proto__`, and altogether exactly when that key does not occur |
| `TraceHeader.RecordDropsProto` | examples/node-receipt-check/potion-check.ts:27-30 | a header on which they differ |
| `TraceHeader.PythonDiffersOnlyBeforeEquals` | examples/python-triage/triage.py:25-32 | the Python reader agrees with the `Map` on every key but the empty one, and altogether when no part starts with `=` |
| `TraceHeader.PythonAgreesIff` | examples/python-triage/triage.py:25-32 | the Python reader and the `Map` agree on a header exactly when the last part with a blank key that each takes has the same value |
| `TraceHeader.PythonAgreesOnHeaderIff` | examples/python-triage/triage.py:25-32 | read off the header: exactly when its last blank key has white space before the `=`, or repeats the value of the last one that has |
| `TraceHeader.PythonTakesEmptyKey` | examples/python-triage/triage.py:29-31 | a header on which it differs |
| `TrancheSelection.SelectTranche` | scripts/select-tranche.ts:65-76 | cheap, middle, strong: of each class at most the limit of those that are the newest of their vendor there, newest first and those of a day in the order their groups were listed; one left out leaves a full class that comes before it |
| `TrancheSelection.RepresentativesAreExactly` | scripts/select-tranche.ts:65-70 | the fold leaves, for every vendor and class, exactly the first candidate maximal in age and tools |
| `TrancheSelection.SameGroupIff` | scripts/select-tranche.ts:67 | the key of a group tells vendor and class apart, whatever the vendor is called |
| `TrancheSelection.SortedIsOrdered` | scripts/select-tranche.ts:74 | the sort is by day, newest first, and keeps the order of the list within a day |
| `AliasSearch.FreshAlias` | scripts/tranche-ingest.ts:23-29 | the search ends within one probe more than there are names taken, with the base if it is free and else with the first free one of the base with `-2`, `-3` and so on |
| `CellMerge.Merge` | scripts/gsm8k-merge.ts:10-27 | for every positive chunk size the merge is one first-wins union, and the count is the growth of the target |
| `CellMerge.FirstWins` | scripts/gsm8k-merge.ts:23 | the target keeps its own cells; any other key holds the first row that brought it |
| `CellMerge.OrderIsIrrelevant` | scripts/gsm8k-merge.ts:1-4 | when rows with one key that the target lacks are equal, the order of the rows makes no difference |
| `CellMerge.OrderIsIrrelevantIff` | scripts/gsm8k-merge.ts:23 | and only then: every order of the rows merges alike exactly when rows with one key the target lacks are equal |
| `TurnList.TrimParked` | apps/dashboard/components/lab-chat.tsx:307-313 | the trim removes exactly the longest run at the end that restates the question |
| `TurnList.NormIs` | apps/dashboard/components/lab-chat.tsx:295-305 | the normal form of a text is its words with one space between two |
| `TurnList.IncludesIff` | apps/dashboard/components/lab-chat.tsx:301-311 | a text includes another exactly when it is something, that text, and something |
| `TurnList.Turns` | apps/dashboard/components/lab-chat.tsx:288-315 | the turns are the kept ones of the steps that are not hidden, in order, cut at the trim while parked on a question |
| `TurnList.KeptIsOrdered` | apps/dashboard/components/lab-chat.tsx:297-302 | the filter keeps, in order, all visible steps but the model steps whose first 60 characters, at least twelve, are in the check-in right after them |
| `TurnList.NothingUnsaid` | apps/dashboard/components/lab-chat.tsx:288-315 | what a removed step opens with is said in the check-in after it, which stays, or in the question, unless that check-in is longer than its head |
| `TurnList.LastTurnIsNews` | apps/dashboard/components/lab-chat.tsx:303-314 | the last turn of a parked run does not restate the question |

## Left out

- Scrubber.ScrubIdempotentIff: the exact condition is on the text that reaches the last pass; on the text itself `LineJoins` gives one direction for every text and both for a text without key shapes, because the bearer pass can itself join two lines of a quoted value.
- Campaigns.ClampedActualSpend: a bound for one run, in terms of what its failed legs cost; when no run can pass the belt is `Campaigns.AccountStaysInBeltIff`.
- Truncation.EmittedPassesVerifierIff: its condition is on what `safe` returned; `CutVerdict.SafePassesVerifierIff` states it on the scrubbed text and the limit, for payloads without a join behind an open quote.
- EvidenceSignature.SignatureDecidesEvidence: holds for parts free of the delimiters that end them; the four lemmas beside it show that each part of the condition is needed.
- TraceHeader.PythonAgreesIff: Python's `strip` and JavaScript's `trim` differ on a few control and format characters; the model uses one definition of white space for all three readers.
- Characters: a `char` stands for one UTF-16 code unit in TypeScript and one code point in Python; lone surrogates and the order of surrogate pairs under `sort` are not modelled.
- Regular expressions: only the shapes the ten patterns, the path segments and the live ids use; word boundaries are the change between `\w` and its complement, and Python's `$` matches before a final newline.
- Object keys of a structure are neither scrubbed nor searched, as in the source; `JSON.parse` and `JSON.stringify` are not part of this model, and tool arguments and results enter as the text they serialise to.
- Directories named `.git` and symbolic links: the walk skips them, so what a run changes there is neither handed back nor part of a modelled directory; the two script files are excluded by name.
- SHA-256 and UTF-8 decoding are function parameters; that no changed file keeps its digest is an explicit assumption (`NoCollision`), and the directory is taken to be quiescent between the second snapshot and the collection.
- Processes, resource limits, wall-clock kills, symbolic links, the input-size cap and base64 in the sandbox: an execution is an arbitrary change of the directory and an arbitrary sequence of output chunks.
- Dollars are reals; rounding of doubles is not modelled, the one-nanodollar tolerance is.
- `requiredLiveEnvVars`, argument parsing, the belt's `LEG_ORDER` agreement check and the choice of feasible rungs: easy members or code behind packages that is not part of this model.
- The handlers that spend money (`frontierPlatformSweepHandler`, `feltSweep`, `runEval`) are arbitrary functions, with the spending assumption of each theorem stated in it.
- Promotion imports run one at a time in `Promotion.RunKeeps`; imports that overlap are those of `Promotion.InterleavingIsGoodIff`, with a save as one step. Provenance stamping, organisation scopes, ids and parent links of the store are left out.
- React rendering, unmounting and the policy buttons of the lens; a request is a text and an outcome, and the body of a successful answer is a plan or `null`.
- Normalising a model id into an alias base, and names added in the same tranche: the search looks at the existing table only.
- HTTP, databases, files, environment loading and console output of the scripts.
