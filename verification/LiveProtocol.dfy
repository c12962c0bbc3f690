/** The live-output registry of the sandbox as a transition system. Each action is
    one critical section of `LIVE_LOCK`; a run is any sequence of enabled actions,
    which is to say any interleaving of executions, their reader threads and tails. */
module LiveProtocol {
  import opened Text
  import opened Spelling
  import opened Wrappers

  type Bytes = seq<bv8>

  datatype Stream = Out | Err

  /** Where `run_exec` stands: running its process, holding the copied output, or gone. */
  datatype Phase = Running | Copied | Finished

  datatype Record = Record(out: Bytes, err: Bytes)

  /** One execution: the id it registered under, if any, its buffers and its `done` flag, where it
      stands, and the output it copied for its answer. */
  datatype Exec = Exec(id: Option<string>, out: Bytes, err: Bytes, done: bool, phase: Phase, record: Option<Record>)

  /** Executions in the order they started, and the `LIVE` dictionary, by index. */
  datatype State = State(execs: seq<Exec>, live: map<string, nat>)

  datatype Action =
    | Start(execId: Option<string>)
    | Append(exec: nat, stream: Stream, chunk: Bytes)
    | Copy(exec: nat)
    | Finish(exec: nat)

  const INITIAL := State([], map[])
  const MAX_STREAM := 64 * 1024

  predicate IsLiveIdChar(c: char) {
    IsLetter(c) || IsDigit(c) || c == '_' || c == '-'
  }

  /** `re.match("^[A-Za-z0-9_-]{8,64}$", id)`; `$` also matches before a final newline. */
  predicate IsLiveId(id: string) {
    var body := DropNewline(id);
    8 <= |body| <= 64 && forall i :: 0 <= i < |body| ==> IsLiveIdChar(body[i])
  }

  /** An execution registers only under an id of the right form. */
  function Registered(execId: Option<string>): Option<string> {
    if execId.Some? && IsLiveId(execId.value) then execId else None
  }

  /** Readers append as long as their pipe lasts, which can be after `run_exec` stopped waiting for
      them; output is copied once; an execution ends after the copy, or before it when starting the
      process failed. */
  predicate Enabled(s: State, a: Action) {
    match a
    case Start(_) => true
    case Append(i, _, _) => i < |s.execs|
    case Copy(i) => i < |s.execs| && s.execs[i].phase == Running
    case Finish(i) => i < |s.execs| && s.execs[i].phase != Finished
  }

  function Step(s: State, a: Action): State
    requires Enabled(s, a)
  {
    match a
    case Start(execId) =>
      var id := Registered(execId);
      State(s.execs + [Exec(id, [], [], false, Running, None)],
            if id.Some? then s.live[id.value := |s.execs|] else s.live)
    case Append(i, stream, chunk) =>
      var e := s.execs[i];
      s.(execs := s.execs[i := if stream.Out? then e.(out := e.out + chunk) else e.(err := e.err + chunk)])
    case Copy(i) =>
      var e := s.execs[i];
      s.(execs := s.execs[i := e.(phase := Copied, record := Some(Record(e.out, e.err)))])
    case Finish(i) =>
      var e := s.execs[i];
      if e.id.None? then s.(execs := s.execs[i := e.(phase := Finished)])
      else State(s.execs[i := e.(phase := Finished, done := true)], s.live - {e.id.value})
  }

  /** The last part of a text, as much as a tail shows. */
  function ClipFront(text: string): string {
    if |text| > MAX_STREAM then text[|text| - MAX_STREAM..] else text
  }

  datatype View = View(stdout: string, stderr: string, done: bool)

  /** The answer to `GET /tail/<id>`; `decode` stands for UTF-8 decoding with replacement. */
  function Tail(s: State, execId: string, decode: Bytes -> string): Option<View> {
    if IsLiveId(execId) && execId in s.live && s.live[execId] < |s.execs| then
      var e := s.execs[s.live[execId]];
      Some(View(ClipFront(decode(e.out)), ClipFront(decode(e.err)), e.done))
    else None
  }

  // ----- ids and tails, spelled out -----

  /** Eight to 64 letters, digits, underscores and dashes; the `$` of the expression lets a final newline pass. */
  ghost predicate IsIdText(id: string) {
    exists body :: IsIdBody(id, body)
  }

  predicate IsIdBody(id: string, body: string) {
    (id == body || id == body + "\n") && 8 <= |body| <= 64 && MadeOf(body, UPPER + LOWER + DIGITS + "_-")
  }

  lemma LiveIdIs(id: string)
    ensures IsLiveId(id) <==> IsIdText(id)
  {
    var stripped := DropNewline(id);
    BodySpelled(stripped);
    assert IsLiveId(id) <==> 8 <= |stripped| <= 64 && MadeOf(stripped, UPPER + LOWER + DIGITS + "_-");
    hide IsLiveId, IsLiveIdChar, MadeOf;
    if IsLiveId(id) {
      assert id == stripped || id == stripped + "\n";
      assert IsIdBody(id, stripped);
    }
    if body :| IsIdBody(id, body) {
      NoNewlineAtEnd(body);
      Stripped(id, body);
    }
  }

  lemma Stripped(id: string, body: string)
    requires body != "" && body[|body| - 1] != '\n' && (id == body || id == body + "\n")
    ensures body == DropNewline(id)
  {
  }

  lemma BodySpelled(body: string)
    ensures (forall i :: 0 <= i < |body| ==> IsLiveIdChar(body[i])) <==> MadeOf(body, UPPER + LOWER + DIGITS + "_-")
  {
    forall i | 0 <= i < |body| ensures IsLiveIdChar(body[i]) <==> body[i] in UPPER + LOWER + DIGITS + "_-" {
      UpperSpelled(body[i]);
      LowerSpelled(body[i]);
      DigitSpelled(body[i]);
    }
    hide IsLiveIdChar;
  }

  lemma NoNewlineAtEnd(body: string)
    requires body != "" && MadeOf(body, UPPER + LOWER + DIGITS + "_-")
    ensures body[|body| - 1] != '\n'
  {
  }

  /** `shown` is the end of `text`: all of it, or its last 65536 characters. */
  ghost predicate ShowsEnd(text: string, shown: string) {
    (exists head :: text == head + shown) && |shown| == if |text| <= 65536 then |text| else 65536
  }

  lemma ClipFrontIs(text: string, shown: string)
    ensures shown == ClipFront(text) <==> ShowsEnd(text, shown)
  {
    if shown == ClipFront(text) {
      assert text == text[..|text| - |shown|] + shown;
    }
    if head :| text == head + shown {
      assert shown == text[|head|..];
    }
  }

  /** What `GET /tail/<id>` answers: nothing for what is no id or has no entry, else the ends of what the
      entry's buffers decode to, and its flag. */
  ghost predicate IsAnswer(s: State, execId: string, decode: Bytes -> string, view: Option<View>) {
    var found := IsIdText(execId) && execId in s.live && s.live[execId] < |s.execs|;
    match view
    case None => !found
    case Some(v) =>
      found &&
      var e := s.execs[s.live[execId]];
      ShowsEnd(decode(e.out), v.stdout) && ShowsEnd(decode(e.err), v.stderr) && v.done == e.done
  }

  lemma TailIs(s: State, execId: string, decode: Bytes -> string)
    ensures IsAnswer(s, execId, decode, Tail(s, execId, decode))
  {
    LiveIdIs(execId);
    hide IsLiveId, IsIdText, ClipFront, ShowsEnd;
    if execId in s.live && s.live[execId] < |s.execs| {
      var e := s.execs[s.live[execId]];
      ClipFrontIs(decode(e.out), ClipFront(decode(e.out)));
      ClipFrontIs(decode(e.err), ClipFront(decode(e.err)));
    }
  }

  // ----- runs -----

  ghost predicate IsRun(s: State, actions: seq<Action>)
    decreases |actions|
  {
    actions != [] ==> Enabled(s, actions[0]) && IsRun(Step(s, actions[0]), actions[1..])
  }

  function After(s: State, actions: seq<Action>): State
    requires IsRun(s, actions)
    decreases |actions|
  {
    if actions == [] then s else After(Step(s, actions[0]), actions[1..])
  }

  /** Whatever is registered is an execution that is not over, under its own id. */
  predicate Inv(s: State) {
    && (forall id :: id in s.live ==>
          && s.live[id] < |s.execs|
          && s.execs[s.live[id]].id == Some(id)
          && s.execs[s.live[id]].phase != Finished)
    && (forall i :: 0 <= i < |s.execs| ==> (s.execs[i].done <==> s.execs[i].id.Some? && s.execs[i].phase == Finished))
    && (forall i :: 0 <= i < |s.execs| ==> (s.execs[i].id.Some? ==> IsLiveId(s.execs[i].id.value)))
  }

  lemma StepKeepsInv(s: State, a: Action)
    requires Inv(s) && Enabled(s, a)
    ensures Inv(Step(s, a))
  {
    hide IsLiveId;
  }

  lemma {:induction false} RunKeepsInv(s: State, actions: seq<Action>)
    requires Inv(s) && IsRun(s, actions)
    ensures Inv(After(s, actions))
    decreases |actions|
  {
    hide Inv, Step;
    if actions != [] {
      StepKeepsInv(s, actions[0]);
      RunKeepsInv(Step(s, actions[0]), actions[1..]);
    }
  }

  /** A tail never says that an execution is done, in any interleaving and even when ids are
      used twice: an execution that sets the flag leaves the dictionary in the same step. */
  lemma TailNeverDone(actions: seq<Action>, execId: string, decode: Bytes -> string)
    requires IsRun(INITIAL, actions)
    ensures var view := Tail(After(INITIAL, actions), execId, decode); view.Some? ==> !view.value.done
  {
    RunKeepsInv(INITIAL, actions);
  }

  /** What an execution can only gain: output, and a record that is then fixed. */
  predicate Grows(before: Exec, after: Exec) {
    && before.id == after.id
    && before.out <= after.out && before.err <= after.err
    && (before.record.Some? ==> after.record == before.record)
    && (before.phase == Running && after.record.Some? ==>
          before.out <= after.record.value.out && before.err <= after.record.value.err)
    && (before.phase == Finished ==> after.phase == Finished)
    && (before.phase != Running ==> after.phase != Running)
  }

  lemma StepGrows(s: State, a: Action, i: nat)
    requires Enabled(s, a) && i < |s.execs|
    requires s.execs[i].phase == Running ==> s.execs[i].record.None?
    ensures i < |Step(s, a).execs| && Grows(s.execs[i], Step(s, a).execs[i])
    ensures Step(s, a).execs[i].phase == Running ==> Step(s, a).execs[i].record.None?
  {
  }

  lemma GrowsTrans(a: Exec, b: Exec, c: Exec)
    requires Grows(a, b) && Grows(b, c)
    requires b.phase == Running ==> b.record.None?
    requires a.phase == Running && b.phase != Running && b.record.None? ==> c.record.None?
    ensures Grows(a, c)
  {
  }

  /** Once an execution has stopped running without a record it never gets one. */
  lemma {:induction false} RunGrows(s: State, actions: seq<Action>, i: nat)
    requires IsRun(s, actions) && i < |s.execs|
    requires s.execs[i].phase == Running ==> s.execs[i].record.None?
    ensures i < |After(s, actions).execs| && Grows(s.execs[i], After(s, actions).execs[i])
    ensures s.execs[i].phase != Running && s.execs[i].record.None? ==> After(s, actions).execs[i].record.None?
    decreases |actions|
  {
    hide Step, Grows;
    if actions != [] {
      var s' := Step(s, actions[0]);
      StepGrows(s, actions[0], i);
      NoLateRecord(s, actions[0], i);
      RunGrows(s', actions[1..], i);
      GrowsTrans(s.execs[i], s'.execs[i], After(s, actions).execs[i]);
    } else {
      GrowsSelf(s.execs[i]);
    }
  }

  lemma GrowsSelf(e: Exec)
    requires e.phase == Running ==> e.record.None?
    ensures Grows(e, e)
  {
  }

  lemma NoLateRecord(s: State, a: Action, i: nat)
    requires Enabled(s, a) && i < |s.execs|
    ensures i < |Step(s, a).execs|
    ensures s.execs[i].phase != Running ==> Step(s, a).execs[i].phase != Running
    ensures s.execs[i].phase != Running && s.execs[i].record.None? ==> Step(s, a).execs[i].record.None?
  {
  }

  lemma {:induction false} RunAppend(s: State, a: seq<Action>, b: seq<Action>)
    requires IsRun(s, a + b)
    ensures IsRun(s, a) && IsRun(After(s, a), b) && After(s, a + b) == After(After(s, a), b)
    decreases |a|
  {
    hide Step;
    if a == [] {
      assert a + b == b;
    } else {
      assert (a + b)[1..] == a[1..] + b;
      RunAppend(Step(s, a[0]), a[1..], b);
    }
  }

  lemma {:induction false} NoRecordWhileRunning(s: State, actions: seq<Action>, i: nat)
    requires IsRun(s, actions)
    requires forall k :: 0 <= k < |s.execs| && s.execs[k].phase == Running ==> s.execs[k].record.None?
    ensures i < |After(s, actions).execs| && After(s, actions).execs[i].phase == Running ==>
              After(s, actions).execs[i].record.None?
    decreases |actions|
  {
    if actions != [] {
      NoRecordWhileRunning(Step(s, actions[0]), actions[1..], i);
    }
  }

  /** A tail taken while the process runs shows the end of a prefix of the output that is later
      recorded, on both streams. */
  lemma TailShowsPrefixOfRecord(before: seq<Action>, later: seq<Action>, execId: string, decode: Bytes -> string)
    requires IsRun(INITIAL, before + later)
    requires IsRun(INITIAL, before)
    requires var s := After(INITIAL, before);
      IsLiveId(execId) && execId in s.live && s.live[execId] < |s.execs| && s.execs[s.live[execId]].phase == Running
    ensures var s, s' := After(INITIAL, before), After(INITIAL, before + later);
      var i := s.live[execId];
      i < |s'.execs| && (s'.execs[i].record.Some? ==>
        exists out, err, view :: out <= s'.execs[i].record.value.out && err <= s'.execs[i].record.value.err &&
          Tail(s, execId, decode) == Some(view) && !view.done && ShowsEnd(decode(out), view.stdout) && ShowsEnd(decode(err), view.stderr))
  {
    var s := After(INITIAL, before);
    var i := s.live[execId];
    RunAppend(INITIAL, before, later);
    NoRecordWhileRunning(INITIAL, before, i);
    RunGrows(s, later, i);
    RunKeepsInv(INITIAL, before);
    TailIs(s, execId, decode);
    hide ShowsEnd;
    assert Tail(s, execId, decode).Some? && !Tail(s, execId, decode).value.done;
  }

  // ----- one id at a time -----

  /** No execution that is not over is registered under the id that `a` starts with. */
  predicate IsFreshStart(s: State, a: Action) {
    a.Start? && Registered(a.execId).Some? ==>
      forall i :: 0 <= i < |s.execs| && s.execs[i].phase != Finished ==> s.execs[i].id != Registered(a.execId)
  }

  ghost predicate IsFreshRun(s: State, actions: seq<Action>)
    decreases |actions|
  {
    actions != [] ==>
      Enabled(s, actions[0]) && IsFreshStart(s, actions[0]) && IsFreshRun(Step(s, actions[0]), actions[1..])
  }

  /** Every execution with an id is registered, as itself, exactly until it is over. */
  predicate Exact(s: State) {
    forall i :: 0 <= i < |s.execs| && s.execs[i].id.Some? ==>
      (s.execs[i].phase != Finished <==> s.execs[i].id.value in s.live && s.live[s.execs[i].id.value] == i)
  }

  lemma StepKeepsExact(s: State, a: Action)
    requires Inv(s) && Exact(s) && Enabled(s, a) && IsFreshStart(s, a)
    ensures Exact(Step(s, a))
  {
    hide IsLiveId;
  }

  lemma {:induction false} FreshRunKeepsExact(s: State, actions: seq<Action>)
    requires Inv(s) && Exact(s) && IsFreshRun(s, actions)
    ensures IsRun(s, actions) && Exact(After(s, actions)) && Inv(After(s, actions))
    decreases |actions|
  {
    hide Inv, Exact, Step, IsFreshStart;
    if actions != [] {
      StepKeepsInv(s, actions[0]);
      StepKeepsExact(s, actions[0]);
      FreshRunKeepsExact(Step(s, actions[0]), actions[1..]);
    }
  }

  /** While no id is in flight twice, a tail finds an entry exactly while an execution with that
      id is not over. */
  lemma PresentExactlyWhileRunning(actions: seq<Action>, execId: string, decode: Bytes -> string)
    requires IsFreshRun(INITIAL, actions)
    ensures IsRun(INITIAL, actions)
    ensures var s := After(INITIAL, actions);
      Tail(s, execId, decode).Some? <==>
        exists i :: 0 <= i < |s.execs| && s.execs[i].id == Some(execId) && s.execs[i].phase != Finished
  {
    hide IsLiveId;
    FreshRunKeepsExact(INITIAL, actions);
  }

  /** `Exact` at every state a run goes through. */
  ghost predicate ExactThroughout(s: State, actions: seq<Action>)
    requires IsRun(s, actions)
    decreases |actions|
  {
    Exact(s) && (actions != [] ==> ExactThroughout(Step(s, actions[0]), actions[1..]))
  }

  lemma StaleStartBreaksExact(s: State, a: Action)
    requires Inv(s) && Exact(s) && Enabled(s, a) && !IsFreshStart(s, a)
    ensures !Exact(Step(s, a))
  {
    var i :| 0 <= i < |s.execs| && s.execs[i].phase != Finished && s.execs[i].id == Registered(a.execId);
    assert Step(s, a).execs[i] == s.execs[i];
    assert Step(s, a).live[s.execs[i].id.value] == |s.execs|;
  }

  /** No id is in flight twice in a run exactly when every execution is registered, as itself, exactly
      until it is over, in every state the run goes through. */
  lemma {:induction false} ExactIffFresh(s: State, actions: seq<Action>)
    requires Inv(s) && Exact(s) && IsRun(s, actions)
    ensures IsFreshRun(s, actions) <==> ExactThroughout(s, actions)
    decreases |actions|
  {
    hide Inv, Exact, Step, Enabled, IsFreshStart;
    if actions != [] {
      StepKeepsInv(s, actions[0]);
      if IsFreshStart(s, actions[0]) {
        StepKeepsExact(s, actions[0]);
        ExactIffFresh(Step(s, actions[0]), actions[1..]);
      } else {
        StaleStartBreaksExact(s, actions[0]);
      }
    }
  }

  /** Every execution that is not over finds its id registered, be it by another. */
  predicate Present(s: State) {
    forall i :: 0 <= i < |s.execs| && s.execs[i].id.Some? && s.execs[i].phase != Finished ==> s.execs[i].id.value in s.live
  }

  /** What that means for tails: there is an entry exactly while some execution with the id is not over. */
  lemma PresentMeansTailed(s: State, decode: Bytes -> string)
    requires Inv(s)
    ensures Present(s) <==>
      forall execId :: Tail(s, execId, decode).Some? <==>
        exists i :: 0 <= i < |s.execs| && s.execs[i].id == Some(execId) && s.execs[i].phase != Finished
  {
    if !Present(s) {
      var i :| 0 <= i < |s.execs| && s.execs[i].id.Some? && s.execs[i].phase != Finished && s.execs[i].id.value !in s.live;
      assert Tail(s, s.execs[i].id.value, decode) == None;
    }
  }

  /** If `a` ends an execution with an id, no other execution with that id is still going. */
  predicate EndsAlone(s: State, a: Action)
    requires Enabled(s, a)
  {
    a.Finish? && s.execs[a.exec].id.Some? ==>
      forall j :: 0 <= j < |s.execs| && j != a.exec && s.execs[j].phase != Finished ==> s.execs[j].id != s.execs[a.exec].id
  }

  ghost predicate EndsAloneRun(s: State, actions: seq<Action>)
    requires IsRun(s, actions)
    decreases |actions|
  {
    actions != [] ==> EndsAlone(s, actions[0]) && EndsAloneRun(Step(s, actions[0]), actions[1..])
  }

  ghost predicate PresentThroughout(s: State, actions: seq<Action>)
    requires IsRun(s, actions)
    decreases |actions|
  {
    Present(s) && (actions != [] ==> PresentThroughout(Step(s, actions[0]), actions[1..]))
  }

  lemma StepKeepsPresentIff(s: State, a: Action)
    requires Present(s) && Enabled(s, a)
    ensures Present(Step(s, a)) <==> EndsAlone(s, a)
  {
    if !EndsAlone(s, a) {
      var j :| 0 <= j < |s.execs| && j != a.exec && s.execs[j].phase != Finished && s.execs[j].id == s.execs[a.exec].id;
      assert Step(s, a).execs[j] == s.execs[j];
    }
  }

  /** Over a whole run an entry is there exactly while an execution with its id is going on, if and only if
      no execution ends while another with its id goes on: using an id twice is harmless until then. */
  lemma {:induction false} PresentIffEndsAlone(s: State, actions: seq<Action>)
    requires Present(s) && IsRun(s, actions)
    ensures PresentThroughout(s, actions) <==> EndsAloneRun(s, actions)
    decreases |actions|
  {
    hide Present, Step, Enabled, EndsAlone;
    if actions != [] {
      StepKeepsPresentIff(s, actions[0]);
      if EndsAlone(s, actions[0]) {
        PresentIffEndsAlone(Step(s, actions[0]), actions[1..]);
      }
    }
  }

  // ----- output after the copy -----

  /** An action that appends output to the `i`-th execution. */
  predicate FeedsAt(a: Action, i: nat) {
    a.Append? && a.exec == i && a.chunk != []
  }

  /** Some action of a run does. */
  predicate Feeds(actions: seq<Action>, i: nat)
    decreases |actions|
  {
    actions != [] && (FeedsAt(actions[0], i) || Feeds(actions[1..], i))
  }

  lemma StepKeepsBuffersIff(s: State, a: Action, i: nat)
    requires Enabled(s, a) && i < |s.execs|
    ensures i < |Step(s, a).execs|
    ensures var e, e' := s.execs[i], Step(s, a).execs[i];
      e'.out == e.out && e'.err == e.err <==> !FeedsAt(a, i)
    ensures s.execs[i].phase != Running ==> Step(s, a).execs[i].phase != Running && Step(s, a).execs[i].record == s.execs[i].record
  {
    if FeedsAt(a, i) {
      var e, e' := s.execs[i], Step(s, a).execs[i];
      assert |e'.out| + |e'.err| == |e.out| + |e.err| + |a.chunk|;
    }
  }

  /** The buffers of an execution that has stopped running stay as they are exactly when nothing is
      appended to them. */
  lemma {:induction false} BuffersStayIff(s: State, actions: seq<Action>, i: nat)
    requires IsRun(s, actions) && i < |s.execs| && s.execs[i].phase != Running
    ensures i < |After(s, actions).execs| && After(s, actions).execs[i].record == s.execs[i].record
    ensures var e, e' := s.execs[i], After(s, actions).execs[i];
      e'.out == e.out && e'.err == e.err <==> !Feeds(actions, i)
    decreases |actions|
  {
    hide Step, Enabled;
    if actions != [] {
      var a := actions[0];
      StepKeepsBuffersIff(s, a, i);
      BuffersStayIff(Step(s, a), actions[1..], i);
      if FeedsAt(a, i) {
        StepGrows(s, a, i);
        RunGrows(Step(s, a), actions[1..], i);
        LongerStaysDifferent(s.execs[i], Step(s, a).execs[i], After(s, actions).execs[i]);
      }
    }
  }

  lemma LongerStaysDifferent(a: Exec, b: Exec, c: Exec)
    requires a.out <= b.out <= c.out && a.err <= b.err <= c.err && !(a.out == b.out && a.err == b.err)
    ensures !(c.out == a.out && c.err == a.err)
  {
    assert b.out[..|a.out|] == a.out && b.err[..|a.err|] == a.err;
  }

  /** From the copy on a tail shows what is in the buffers, and that is the record exactly as long as no
      output arrived after the copy. */
  lemma TailAfterCopyShowsRecordIff(before: seq<Action>, i: nat, later: seq<Action>, execId: string, decode: Bytes -> string)
    requires IsRun(INITIAL, before) && Enabled(After(INITIAL, before), Copy(i))
    requires IsRun(Step(After(INITIAL, before), Copy(i)), later)
    ensures var s := After(Step(After(INITIAL, before), Copy(i)), later);
      && i < |s.execs| && s.execs[i].record.Some?
      && (Record(s.execs[i].out, s.execs[i].err) == s.execs[i].record.value <==> !Feeds(later, i))
      && (execId in s.live && s.live[execId] == i ==>
            exists view :: Tail(s, execId, decode) == Some(view) && !view.done
              && ShowsEnd(decode(s.execs[i].out), view.stdout) && ShowsEnd(decode(s.execs[i].err), view.stderr))
  {
    var copied := Step(After(INITIAL, before), Copy(i));
    RunKeepsInv(INITIAL, before);
    StepKeepsInv(After(INITIAL, before), Copy(i));
    RunKeepsInv(copied, later);
    BuffersStayIff(copied, later, i);
    var s := After(copied, later);
    TailIs(s, execId, decode);
    hide ShowsEnd;
    assert execId in s.live && s.live[execId] == i ==> Tail(s, execId, decode).Some? && !Tail(s, execId, decode).value.done;
  }

  // ----- runs on which the conditions fail -----

  /** With one id in flight twice this fails: the first to finish removes the entry of the second. */
  lemma SecondUseLosesItsEntry(id: string, decode: Bytes -> string)
    requires IsLiveId(id)
    ensures var actions := [Start(Some(id)), Start(Some(id)), Finish(0)];
      && IsRun(INITIAL, actions)
      && |After(INITIAL, actions).execs| == 2 && After(INITIAL, actions).execs[1].phase == Running
      && Tail(After(INITIAL, actions), id, decode) == None
  {
    hide IsLiveId;
    var s1 := Step(INITIAL, Start(Some(id)));
    var s2 := Step(s1, Start(Some(id)));
    var s3 := Step(s2, Finish(0));
    var actions := [Start(Some(id)), Start(Some(id)), Finish(0)];
    assert actions[1..] == [Start(Some(id)), Finish(0)] && actions[1..][1..] == [Finish(0)] && [Finish(0)][1..] == [];
    assert IsRun(s3, []) && IsRun(s2, [Finish(0)]) && IsRun(s1, actions[1..]);
    assert After(s2, [Finish(0)]) == s3 && After(s1, actions[1..]) == s3;
  }

  /** Output that arrives after the copy is still shown by a tail, though it is in no record. */
  lemma LateOutputIsShownNotRecorded(id: string, chunk: Bytes, decode: Bytes -> string)
    requires IsLiveId(id) && chunk != []
    ensures var actions := [Start(Some(id)), Copy(0), Append(0, Out, chunk)];
      && IsRun(INITIAL, actions)
      && |After(INITIAL, actions).execs| == 1
      && After(INITIAL, actions).execs[0].record == Some(Record([], []))
      && Tail(After(INITIAL, actions), id, decode) == Some(View(ClipFront(decode(chunk)), ClipFront(decode([])), false))
  {
    hide IsLiveId, ClipFront;
    var s1 := Step(INITIAL, Start(Some(id)));
    var s2 := Step(s1, Copy(0));
    var s3 := Step(s2, Append(0, Out, chunk));
    var actions := [Start(Some(id)), Copy(0), Append(0, Out, chunk)];
    assert actions[1..] == [Copy(0), Append(0, Out, chunk)] && actions[1..][1..] == [Append(0, Out, chunk)];
    assert [Append(0, Out, chunk)][1..] == [];
    assert IsRun(s3, []) && IsRun(s2, [Append(0, Out, chunk)]) && IsRun(s1, actions[1..]);
    assert After(s2, [Append(0, Out, chunk)]) == s3 && After(s1, actions[1..]) == s3;
    assert [] + chunk == chunk;
  }
}
