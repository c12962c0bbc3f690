/** The frontier lens: a debounce timer and a sequence number between the keystrokes of one prompt and
    the answers of many requests, which may come back in any order or not at all. */
module LensProtocol {
  import opened Strings
  import opened Wrappers

  type Plan = string

  /** How a request ends: well, with a plan or with a body that is no JSON or is `null`; with an error
      status; or by throwing. */
  datatype Outcome = Planned(plan: Option<Plan>) | Rejected(message: string) | Thrown(message: string)

  /** The component. `timer` holds the text the pending timer will ask about. */
  datatype View = View(
    prompt: string,
    timer: Option<string>,
    newest: nat,
    plan: Option<Plan>,
    busy: bool,
    error: Option<string>)

  const MIN_CHARS := 12

  predicate Asks(prompt: string) {
    |Trim(prompt)| >= MIN_CHARS
  }

  const MOUNTED := View("", None, 0, None, false, None)

  /** A keystroke: the pending timer is cleared, and a new one set or the answer dropped. Setting the
      prompt to what it is runs no effect. */
  function AfterType(v: View, prompt: string): View {
    if prompt == v.prompt then v
    else if Asks(prompt) then v.(prompt := prompt, timer := Some(Trim(prompt)))
    else v.(prompt := prompt, timer := None, plan := None, error := None)
  }

  /** The timer fires and sends the next request. */
  function AfterFire(v: View): View {
    v.(timer := None, newest := v.newest + 1, busy := true, error := None)
  }

  /** The answer to request `mine` arrives. */
  function AfterRespond(v: View, mine: nat, outcome: Outcome): View {
    if mine != v.newest then v
    else
      match outcome
      case Planned(plan) => v.(plan := plan, busy := false)
      case Rejected(message) => v.(error := Some(message), plan := None, busy := false)
      case Thrown(message) => v.(error := Some(message), busy := false)
  }

  // ----- the component as an object -----

  class Lens {
    var prompt: string
    var timer: Option<string>
    var newest: nat
    var plan: Option<Plan>
    var busy: bool
    var error: Option<string>

    ghost function Abs(): View
      reads this
    {
      View(prompt, timer, newest, plan, busy, error)
    }

    constructor ()
      ensures Abs() == MOUNTED
    {
      prompt, timer, newest, plan, busy, error := "", None, 0, None, false, None;
    }

    method Type(text: string)
      modifies this
      ensures Abs() == AfterType(old(Abs()), text)
      ensures prompt == text && newest == old(newest) && busy == old(busy)
      ensures text == old(prompt) ==> Abs() == old(Abs())
      ensures text != old(prompt) && |Trim(text)| >= 12 ==>
        timer == Some(Trim(text)) && plan == old(plan) && error == old(error)
      ensures text != old(prompt) && |Trim(text)| < 12 ==> timer == None && plan == None && error == None
    {
      if text == prompt {
        return;
      }
      prompt := text;
      timer := None;
      var trimmed := Trim(text);
      if |trimmed| < MIN_CHARS {
        plan := None;
        error := None;
        return;
      }
      timer := Some(trimmed);
    }

    method Fire() returns (mine: nat, asked: string)
      requires timer.Some?
      modifies this
      ensures Abs() == AfterFire(old(Abs()))
      ensures timer == None && newest == old(newest) + 1 && busy && error == None
      ensures prompt == old(prompt) && plan == old(plan)
      ensures mine == newest && Some(asked) == old(timer)
    {
      asked := timer.value;
      timer := None;
      newest := newest + 1;
      mine := newest;
      busy := true;
      error := None;
    }

    method Respond(mine: nat, outcome: Outcome)
      modifies this
      ensures Abs() == AfterRespond(old(Abs()), mine, outcome)
      ensures mine != newest ==> Abs() == old(Abs())
      ensures prompt == old(prompt) && timer == old(timer) && newest == old(newest)
      ensures mine == newest ==> !busy
      ensures mine == newest && outcome.Planned? ==> plan == outcome.plan && error == old(error)
      ensures mine == newest && outcome.Rejected? ==> plan == None && error == Some(outcome.message)
      ensures mine == newest && outcome.Thrown? ==> plan == old(plan) && error == Some(outcome.message)
    {
      match outcome {
        case Planned(body) =>
          if mine == newest {
            plan := body;
          }
        case Rejected(message) =>
          if mine == newest {
            error := Some(message);
            plan := None;
          }
        case Thrown(message) =>
          if mine == newest {
            error := Some(message);
          }
      }
      if mine == newest {
        busy := false;
      }
    }
  }

  // ----- every order of events -----

  datatype Event = Type(prompt: string) | Fire | Respond(mine: nat, outcome: Outcome)

  /** The component with its requests: what each asked, how each that came back ended, which answers
      were applied, and whether one was applied since the last keystroke. */
  datatype World = World(
    view: View,
    asked: seq<string>,
    answers: map<nat, Outcome>,
    applied: seq<nat>,
    appliedSinceType: bool)

  const START := World(MOUNTED, [], map[], [], false)

  /** A timer fires only if one is pending; a request is answered at most once, after it was sent. */
  predicate Enabled(w: World, e: Event) {
    match e
    case Type(_) => true
    case Fire => w.view.timer.Some?
    case Respond(mine, _) => 1 <= mine <= |w.asked| && mine !in w.answers
  }

  function Next(w: World, e: Event): World
    requires Enabled(w, e)
  {
    match e
    case Type(prompt) =>
      if prompt == w.view.prompt then w
      else w.(view := AfterType(w.view, prompt), appliedSinceType := false)
    case Fire => w.(view := AfterFire(w.view), asked := w.asked + [w.view.timer.value])
    case Respond(mine, outcome) =>
      var applies := mine == w.view.newest;
      World(
        AfterRespond(w.view, mine, outcome), w.asked, w.answers[mine := outcome],
        if applies then w.applied + [mine] else w.applied, w.appliedSinceType || applies)
  }

  ghost predicate IsRun(worlds: seq<World>, events: seq<Event>) {
    && |worlds| == |events| + 1
    && worlds[0] == START
    && (forall i :: 0 <= i < |events| ==> Enabled(worlds[i], events[i]) && worlds[i + 1] == Next(worlds[i], events[i]))
  }

  // ----- the invariant -----

  ghost predicate Counted(w: World) {
    && w.view.newest == |w.asked|
    && (forall k :: k in w.answers ==> 1 <= k <= |w.asked|)
    && (w.view.busy <==> |w.asked| > 0 && |w.asked| !in w.answers)
  }

  ghost predicate StrictlyIncreasing(s: seq<nat>) {
    forall i, j :: 0 <= i < j < |s| ==> s[i] < s[j]
  }

  /** Applied answers, in the order they were applied. */
  ghost predicate Increasing(w: World) {
    && (forall i :: 0 <= i < |w.applied| ==> w.applied[i] in w.answers)
    && StrictlyIncreasing(w.applied)
  }

  /** The pending timer and the newest request both belong to the prompt on screen, if it asks. */
  ghost predicate Asked(w: World) {
    && (w.view.timer.Some? ==> Asks(w.view.prompt) && w.view.timer.value == Trim(w.view.prompt))
    && (w.view.timer.None? && Asks(w.view.prompt) ==> w.asked != [] && w.asked[|w.asked| - 1] == Trim(w.view.prompt))
  }

  /** What shows once the newest request ended and nothing cleared it since. */
  ghost predicate Shows(w: World, outcome: Outcome) {
    match outcome
    case Planned(plan) => w.view.plan == plan && w.view.error == None
    case Rejected(message) => w.view.plan == None && w.view.error == Some(message)
    case Thrown(message) => w.view.error == Some(message)
  }

  ghost predicate Shown(w: World) {
    && (Asks(w.view.prompt) && w.view.timer.None? && |w.asked| in w.answers ==> Shows(w, w.answers[|w.asked|]))
    && (!Asks(w.view.prompt) && !w.appliedSinceType ==> w.view.plan == None && w.view.error == None)
    && (!Asks(w.view.prompt) && w.appliedSinceType ==>
          && |w.asked| in w.answers && Shows(w, w.answers[|w.asked|])
          && (w.answers[|w.asked|].Thrown? ==> w.view.plan == None))
    && (w.view.busy ==> w.view.error == None)
  }

  ghost predicate Inv(w: World) {
    Counted(w) && Increasing(w) && Asked(w) && Shown(w)
  }

  lemma NextKeepsInv(w: World, e: Event)
    requires Inv(w) && Enabled(w, e)
    ensures Inv(Next(w, e))
  {
    hide Trim;
    assert Counted(Next(w, e));
    assert Increasing(Next(w, e));
  }

  lemma {:induction false} RunKeepsInv(worlds: seq<World>, events: seq<Event>, n: nat)
    requires IsRun(worlds, events) && n <= |events|
    ensures Inv(worlds[n])
  {
    if n > 0 {
      hide Inv, Next, Enabled;
      RunKeepsInv(worlds, events, n - 1);
      NextKeepsInv(worlds[n - 1], events[n - 1]);
    } else {
      NothingAsked();
    }
  }

  lemma NothingAsked()
    ensures Inv(START)
  {
    assert Trim("") == "";
  }

  // ----- what every run shows -----

  /** The spinner is on exactly while the newest request is unanswered. */
  lemma BusyIffNewestUnanswered(worlds: seq<World>, events: seq<Event>, n: nat)
    requires IsRun(worlds, events) && n <= |events|
    ensures var w := worlds[n];
      w.view.newest == |w.asked| && (w.view.busy <==> |w.asked| > 0 && |w.asked| !in w.answers)
  {
    RunKeepsInv(worlds, events, n);
  }

  /** An answer that is not the newest request's changes nothing on screen, and the answers that do are
      applied in strictly increasing order of their requests, whatever order they come in. */
  lemma OnlyNewestApplies(worlds: seq<World>, events: seq<Event>, n: nat)
    requires IsRun(worlds, events) && n < |events| && events[n].Respond?
    ensures worlds[n + 1].view != worlds[n].view ==> events[n].mine == |worlds[n].asked|
    ensures worlds[n + 1].applied == worlds[n].applied + if events[n].mine == |worlds[n].asked| then [events[n].mine] else []
    ensures StrictlyIncreasing(worlds[n + 1].applied)
  {
    hide Asked, Shown;
    RunKeepsInv(worlds, events, n);
    RunKeepsInv(worlds, events, n + 1);
  }

  /** Once the timer has fired and the newest request is answered, a prompt long enough to ask is shown
      the answer to its own text. */
  lemma SettledShowsOwnAnswer(worlds: seq<World>, events: seq<Event>, n: nat)
    requires IsRun(worlds, events) && n <= |events|
    requires Asks(worlds[n].view.prompt) && worlds[n].view.timer.None? && !worlds[n].view.busy
    ensures var w := worlds[n];
      && w.asked != [] && w.asked[|w.asked| - 1] == Trim(w.view.prompt)
      && |w.asked| in w.answers && Shows(w, w.answers[|w.asked|])
  {
    RunKeepsInv(worlds, events, n);
  }

  /** A plan on screen is the answer to some request, and every answer applied after it threw. */
  ghost predicate Sourced(w: World) {
    w.view.plan.Some? ==> exists i :: SourcedAt(w, i)
  }

  ghost predicate SourcedAt(w: World, i: nat) {
    && w.view.plan.Some? && i < |w.applied|
    && (forall j :: 0 <= j < |w.applied| ==> w.applied[j] in w.answers)
    && w.answers[w.applied[i]] == Planned(w.view.plan)
    && (forall j :: i < j < |w.applied| ==> w.answers[w.applied[j]].Thrown?)
  }

  lemma {:induction false} PlanIsSourced(worlds: seq<World>, events: seq<Event>, n: nat)
    requires IsRun(worlds, events) && n <= |events|
    ensures Sourced(worlds[n])
  {
    if n > 0 {
      PlanIsSourced(worlds, events, n - 1);
      RunKeepsInv(worlds, events, n - 1);
      NextKeepsSourced(worlds[n - 1], events[n - 1]);
    }
  }

  lemma NextKeepsSourced(w: World, e: Event)
    requires Counted(w) && Increasing(w) && Enabled(w, e) && Sourced(w)
    ensures Sourced(Next(w, e))
  {
    hide Trim, Asks;
    var after := Next(w, e);
    if after.view.plan.Some? {
      if e.Respond? && e.mine == w.view.newest && e.outcome.Planned? {
        assert SourcedAt(after, |w.applied|);
      } else {
        assert w.view.plan == after.view.plan;
        var i :| SourcedAt(w, i);
        assert SourcedAt(after, i);
      }
    }
  }

  // ----- a prompt cut short -----

  /** A plan is rendered, and an error whose message is not empty. */
  predicate IsOnScreen(v: View) {
    v.plan.Some? || (v.error.Some? && v.error.value != "")
  }

  /** An answer with nothing to show: no plan, or an error without a message. */
  predicate IsBlank(outcome: Outcome) {
    outcome in {Planned(None), Rejected(""), Thrown("")}
  }

  /** A prompt too short to ask shows an answer exactly when one was applied since the last keystroke
      and it had something to show. */
  lemma ShortPromptShowsIff(worlds: seq<World>, events: seq<Event>, n: nat)
    requires IsRun(worlds, events) && n <= |events|
    requires !Asks(worlds[n].view.prompt)
    ensures worlds[n].appliedSinceType ==> |worlds[n].asked| in worlds[n].answers
    ensures IsOnScreen(worlds[n].view) <==>
      worlds[n].appliedSinceType && !IsBlank(worlds[n].answers[|worlds[n].asked|])
  {
    RunKeepsInv(worlds, events, n);
  }

  /** The prompt was cut short by event `i`, and nothing was typed since. */
  ghost predicate CutAt(worlds: seq<World>, events: seq<Event>, i: nat, n: nat) {
    && IsRun(worlds, events) && i < n <= |events|
    && events[i].Type? && events[i].prompt != worlds[i].view.prompt && !Asks(events[i].prompt)
    && (forall k :: i < k < n ==> !events[k].Type?)
  }

  lemma {:induction false} CutPromptWaits(worlds: seq<World>, events: seq<Event>, i: nat, n: nat)
    requires CutAt(worlds, events, i, n)
    ensures worlds[n].view.prompt == events[i].prompt && worlds[n].view.timer.None?
    ensures worlds[n].asked == worlds[i].asked
    ensures worlds[n].appliedSinceType <==> worlds[i].view.busy && |worlds[i].asked| in worlds[n].answers
    ensures !worlds[i].view.busy && worlds[i].asked != [] ==> |worlds[i].asked| in worlds[n].answers
    decreases n
  {
    RunKeepsInv(worlds, events, i);
    if n > i + 1 {
      RunKeepsInv(worlds, events, n - 1);
      CutPromptWaits(worlds, events, i, n - 1);
    }
  }

  /** A request in flight is not superseded by cutting the prompt short: its answer, which is for text no
      longer there, appears under the short prompt exactly when the request was unanswered at the
      keystroke, has been answered since, and the answer has something to show. */
  lemma StaleAnswerIff(worlds: seq<World>, events: seq<Event>, i: nat, n: nat)
    requires CutAt(worlds, events, i, n)
    ensures IsOnScreen(worlds[n].view) <==>
      && worlds[i].view.busy
      && |worlds[i].asked| in worlds[n].answers && !IsBlank(worlds[n].answers[|worlds[i].asked|])
    ensures worlds[n].appliedSinceType ==>
      |worlds[i].asked| in worlds[n].answers && Shows(worlds[n], worlds[n].answers[|worlds[i].asked|])
  {
    RunKeepsInv(worlds, events, n);
    CutPromptWaits(worlds, events, i, n);
  }

  /** A run that ends with a plan under a prompt. */
  ghost predicate EndsShowing(worlds: seq<World>, events: seq<Event>, prompt: string, plan: Plan) {
    IsRun(worlds, events) && worlds[|events|].view.prompt == prompt && worlds[|events|].view.plan == Some(plan)
  }

  const FIRST := "abcdefghijkl"
  const SECOND := "mnopqrstuvwx"

  lemma RunGoesOn(worlds: seq<World>, events: seq<Event>, e: Event) returns (more: seq<World>)
    requires IsRun(worlds, events) && Enabled(worlds[|events|], e)
    ensures more == worlds + [Next(worlds[|events|], e)] && IsRun(more, events + [e])
  {
    hide Next, Enabled;
    more := worlds + [Next(worlds[|events|], e)];
  }

  /** The plan of the first text is on its way. */
  function InFlight(): World {
    World(View(FIRST, None, 1, None, true, None), [FIRST], map[], [], false)
  }

  lemma FirstIsInFlight() returns (worlds: seq<World>)
    ensures IsRun(worlds, [Type(FIRST), Fire]) && worlds[2] == InFlight()
  {
    TrimOfTrimmed(FIRST);
    worlds := RunGoesOn([START], [], Type(FIRST));
    worlds := RunGoesOn(worlds, [Type(FIRST)], Fire);
    assert [Type(FIRST)] + [Fire] == [Type(FIRST), Fire];
  }

  /** A cleared prompt shows the plan of the text that was there. */
  lemma ClearedPromptShowsOldPlan()
    ensures exists worlds, events :: EndsShowing(worlds, events, "", FIRST)
  {
    var worlds := FirstIsInFlight();
    var events := [Type(FIRST), Fire];
    TrimOfTrimmed("");
    worlds := RunGoesOn(worlds, events, Type(""));
    events := events + [Type("")];
    worlds := RunGoesOn(worlds, events, Respond(1, Planned(Some(FIRST))));
    assert EndsShowing(worlds, events + [Respond(1, Planned(Some(FIRST)))], "", FIRST);
  }

  /** A request that throws leaves the plan of the prompt before it, under its own prompt. */
  lemma ThrownAnswerLeavesOldPlan()
    ensures exists worlds, events :: EndsShowing(worlds, events, SECOND, FIRST)
  {
    hide Trim;
    TrimOfTrimmed(SECOND);
    var worlds := FirstIsInFlight();
    var events := [Type(FIRST), Fire];
    worlds := RunGoesOn(worlds, events, Respond(1, Planned(Some(FIRST))));
    events := events + [Respond(1, Planned(Some(FIRST)))];
    worlds := RunGoesOn(worlds, events, Type(SECOND));
    events := events + [Type(SECOND)];
    worlds := RunGoesOn(worlds, events, Fire);
    events := events + [Fire];
    worlds := RunGoesOn(worlds, events, Respond(2, Thrown("offline")));
    assert EndsShowing(worlds, events + [Respond(2, Thrown("offline"))], SECOND, FIRST);
  }
}
