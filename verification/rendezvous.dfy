/** The meeting of the request handler (`ppo`) and the learner (`step`) over one condition variable. */
module Rendezvous {
  import opened Wrappers

  datatype Kind = Ppo | Dqn

  datatype Report = Report(state: seq<int>, reward: real)

  /** What the learner passes to `step`; the environment only keeps and hands it on. */
  type Action = nat

  // ---- the environment both sides share ----

  datatype Env = Env(report: Option<Report>, action: Option<Action>)

  /** The half of `step` before its wait: only the DQN environments store the action there. */
  function BeginStep(kind: Kind, e: Env, a: Action): Env { if kind == Dqn then e.(action := Some(a)) else e }

  /** The half after the wait: the PPO environments store the action there. */
  function EndStep(kind: Kind, e: Env, a: Action): Env { if kind == Ppo then e.(action := Some(a)) else e }

  class CustomEnv {
    const kind: Kind
    var report: Option<Report>
    var action: Option<Action>

    constructor (kind: Kind)
      ensures this.kind == kind && View() == Env(None, None)
    {
      this.kind, report, action := kind, None, None;
    }

    function View(): Env
      reads this
    {
      Env(report, action)
    }

    method UpdateData(r: Report)
      modifies this`report
      ensures View() == old(View()).(report := Some(r))
    {
      report := Some(r);
    }

    method StepUntilWait(a: Action)
      modifies this`action
      ensures View() == BeginStep(kind, old(View()), a)
    {
      if kind == Dqn { action := Some(a); }
    }

    method StepAfterWait(a: Action) returns (observed: Option<Report>)
      modifies this`action
      ensures observed == report && View() == EndStep(kind, old(View()), a)
    {
      observed := report;
      if kind == Ppo { action := Some(a); }
    }

    function GetAction(): Option<Action>
      reads this
    {
      action
    }
  }

  // ---- the two threads ----

  datatype Party = Server | Agent

  /** Between requests; in `wait`; notified; and back from `ppo` with the action it returned. */
  datatype ServerPhase = Idle | ServerWaits | ServerWoken | Answering(got: Option<Action>)

  /** Not yet learning; in the wait of a step; notified; between two steps; and finished. */
  datatype AgentPhase = Fresh | AgentWaits | AgentWoken | Learning | Done

  /** `requests` and `responses` on the server's side, `actions` passed to `step` and `consumed` on the learner's;
      `lasts` are the requests that were a learner's last. */
  datatype State = State(
    env: Env,
    holder: Option<Party>,
    waiting: seq<Party>,
    server: ServerPhase,
    agent: AgentPhase,
    requests: seq<Report>,
    consumed: seq<Option<Report>>,
    actions: seq<Action>,
    responses: seq<Option<Action>>,
    lasts: set<nat>)

  datatype Step =
    | Begin(first: Action)
    | Submit(report: Report)
    | Consume
    | NextAction(action: Action)
    | Quit
    | Return
    | Respond

  predicate Enabled(s: State, step: Step) {
    match step
    case Begin(_) => s.agent in {Fresh, Done} && s.holder == None
    case Submit(_) => s.server == Idle && s.holder == None
    case Consume => s.agent == AgentWoken && s.holder == None && s.actions != []
    case NextAction(_) => s.agent == Learning
    case Quit => s.agent == Learning
    case Return => s.server == ServerWoken && s.holder == None
    case Respond => s.server.Answering?
  }

  /** `notify`: the party that has waited longest goes on once it gets the lock. */
  function Notify(s: State): State {
    if s.waiting == [] then s
    else if s.waiting[0] == Server then s.(waiting := s.waiting[1..], server := ServerWoken)
    else s.(waiting := s.waiting[1..], agent := AgentWoken)
  }

  function EnterStep(kind: Kind, s: State, a: Action): State {
    s.(env := BeginStep(kind, s.env, a), holder := None, waiting := s.waiting + [Agent], agent := AgentWaits,
       actions := s.actions + [a])
  }

  function LastIndex<T>(s: seq<T>): nat { if s == [] then 0 else |s| - 1 }

  /** A learner begins, or begins again after one that has quit, on the same environment. */
  function Next(kind: Kind, s: State, step: Step): State
    requires Enabled(s, step)
  {
    match step
    case Begin(a) => EnterStep(kind, s, a)
    case Submit(r) =>
      var t := Notify(s.(env := s.env.(report := Some(r)), requests := s.requests + [r]));
      t.(waiting := t.waiting + [Server], server := ServerWaits)
    case Consume =>
      Notify(s.(env := EndStep(kind, s.env, s.actions[|s.actions| - 1]), holder := Some(Agent), agent := Learning,
                consumed := s.consumed + [s.env.report]))
    case NextAction(a) => EnterStep(kind, s, a)
    case Quit => s.(holder := None, agent := Done, lasts := s.lasts + {LastIndex(s.consumed)})
    case Return => s.(server := Answering(s.env.action))
    case Respond =>
      s.(server := Idle, responses := s.responses + [if kind == Dqn then s.env.action else s.server.got])
  }

  /** Nobody is learning yet. */
  const START := State(Env(None, None), None, [], Idle, Fresh, [], [], [], [], {})

  function After(kind: Kind, s: State, steps: seq<Step>): Option<State> {
    if steps == [] then Some(s)
    else
      match After(kind, s, steps[..|steps| - 1])
      case None => None
      case Some(t) => if Enabled(t, steps[|steps| - 1]) then Some(Next(kind, t, steps[|steps| - 1])) else None
  }

  // ---- what every reachable state satisfies ----

  /** The response to request `k` is the action of the step that consumes it with PPO, of the step after it
      with DQN; behind a learner's last step that is its own action still, or a new learner's first. */
  predicate AnswerOk(kind: Kind, actions: seq<Action>, lasts: set<nat>, k: nat, response: Option<Action>)
    requires k < |actions|
  {
    if kind == Ppo then response == Some(actions[k])
    else (k in lasts && response == Some(actions[k])) || (k + 1 < |actions| && response == Some(actions[k + 1]))
  }

  /** The learner is asleep, about to consume, or not there; who holds the lock and who waits follows. */
  predicate Phases(s: State) {
    var n, c, p, m := |s.requests|, |s.consumed|, |s.responses|, |s.actions|;
    && (if s.agent == Learning then s.holder == Some(Agent) else s.holder == None)
    && m == (if s.agent in {AgentWaits, AgentWoken} then c + 1 else c)
    && (if s.server == ServerWaits then n == c + 1 && p == c else n == c && p == if s.server == Idle then c else c - 1)
    && match s.agent
       case Fresh => c == 0 && p == 0 && s.waiting == if s.server == ServerWaits then [Server] else []
       case AgentWaits => s.waiting == if s.server == ServerWaits then [Server, Agent] else [Agent]
       case AgentWoken => s.waiting == [Server] && s.server == ServerWaits
       case Learning => s.waiting == [] && s.server == ServerWoken
       case Done => c > 0 && c - 1 in s.lasts && s.waiting == if s.server == ServerWaits then [Server] else []
  }

  /** The shared fields hold the newest request and the action stored last. */
  predicate Fields(kind: Kind, s: State) {
    && (s.requests != [] ==> s.env.report == Some(s.requests[|s.requests| - 1]))
    && s.env.action == (if kind == Dqn then (if s.actions == [] then None else Some(s.actions[|s.actions| - 1]))
                        else if s.consumed == [] || |s.consumed| > |s.actions| then None
                        else Some(s.actions[|s.consumed| - 1]))
    && (kind == Ppo && s.server.Answering? ==> s.server.got == s.env.action)
  }

  predicate Consumed(s: State) {
    |s.consumed| <= |s.requests| && forall k | 0 <= k < |s.consumed| :: s.consumed[k] == Some(s.requests[k])
  }

  predicate Answered(kind: Kind, s: State) {
    |s.responses| <= |s.actions|
    && forall k | 0 <= k < |s.responses| :: AnswerOk(kind, s.actions, s.lasts, k, s.responses[k])
  }

  predicate Inv(kind: Kind, s: State) { Phases(s) && Fields(kind, s) && Consumed(s) && Answered(kind, s) }

  lemma PhasesNext(kind: Kind, s: State, step: Step)
    requires Phases(s) && Enabled(s, step)
    ensures Phases(Next(kind, s, step))
  {}

  lemma FieldsNext(kind: Kind, s: State, step: Step)
    requires Phases(s) && Fields(kind, s) && Enabled(s, step)
    ensures Fields(kind, Next(kind, s, step))
  {}

  lemma ConsumedNext(kind: Kind, s: State, step: Step)
    requires Phases(s) && Fields(kind, s) && Consumed(s) && Enabled(s, step)
    ensures Consumed(Next(kind, s, step))
  {}

  lemma AnsweredNext(kind: Kind, s: State, step: Step)
    requires Phases(s) && Fields(kind, s) && Answered(kind, s) && Enabled(s, step)
    ensures Answered(kind, Next(kind, s, step))
  {}

  lemma InvNext(kind: Kind, s: State, step: Step)
    requires Inv(kind, s) && Enabled(s, step)
    ensures Inv(kind, Next(kind, s, step))
  {
    PhasesNext(kind, s, step);
    FieldsNext(kind, s, step);
    ConsumedNext(kind, s, step);
    AnsweredNext(kind, s, step);
  }

  lemma {:induction false} Reachable(kind: Kind, steps: seq<Step>)
    ensures After(kind, START, steps).Some? ==> Inv(kind, After(kind, START, steps).value)
  {
    if steps != [] {
      var n := |steps| - 1;
      Reachable(kind, steps[..n]);
      var t := After(kind, START, steps[..n]);
      if t.Some? && Enabled(t.value, steps[n]) { InvNext(kind, t.value, steps[n]); }
    }
  }

  // ---- the guarantees ----

  /** In every run, with any number of learners one after another: each report is consumed once, in order,
      at most one behind; and each response is an action it may be. */
  lemma Safety(kind: Kind, steps: seq<Step>)
    requires After(kind, START, steps).Some?
    ensures var s := After(kind, START, steps).value;
            && |s.consumed| <= |s.requests| <= |s.consumed| + 1
            && (forall k | 0 <= k < |s.consumed| :: s.consumed[k] == Some(s.requests[k]))
            && |s.responses| <= |s.consumed| <= |s.actions|
            && (forall k | 0 <= k < |s.responses| :: AnswerOk(kind, s.actions, s.lasts, k, s.responses[k]))
  {
    Reachable(kind, steps);
  }

  /** No report is overwritten unread, and PPO and DQN differ as documented: with DQN every answer is already
      the next step's action, unless its request was a learner's last. */
  lemma NothingOverwritten(kind: Kind, steps: seq<Step>, report: Report)
    requires After(kind, START, steps).Some? && Enabled(After(kind, START, steps).value, Submit(report))
    ensures var s := After(kind, START, steps).value;
            && |s.consumed| == |s.requests| == |s.responses| <= |s.actions|
            && forall k | 0 <= k < |s.responses| && (kind == Dqn ==> k !in s.lasts) ::
                 var j := if kind == Dqn then k + 1 else k;
                 j < |s.actions| && s.responses[k] == Some(s.actions[j])
  {
    Reachable(kind, steps);
  }

  // ---- when a request stays unanswered ----

  /** Nobody is learning: no learner has begun, or the last one has quit. */
  predicate NotLearning(steps: seq<Step>) {
    steps == [] || steps[|steps| - 1].Quit? || (!steps[|steps| - 1].Begin? && NotLearning(steps[..|steps| - 1]))
  }

  /** Some request was sent while nobody was learning. */
  predicate RequestOutside(steps: seq<Step>) {
    exists i | 0 <= i < |steps| :: steps[i].Submit? && NotLearning(steps[..i])
  }

  lemma OutsideSnoc(steps: seq<Step>, last: Step)
    ensures RequestOutside(steps + [last]) <==> RequestOutside(steps) || (last.Submit? && NotLearning(steps))
    ensures NotLearning(steps + [last]) <==> last.Quit? || (!last.Begin? && NotLearning(steps))
  {
    var all := steps + [last];
    assert all[..|steps|] == steps && all[|steps|] == last;
    assert forall i | 0 <= i < |steps| :: all[i] == steps[i] && all[..i] == steps[..i];
    if RequestOutside(steps) {
      var i :| 0 <= i < |steps| && steps[i].Submit? && NotLearning(steps[..i]);
      assert all[i].Submit? && NotLearning(all[..i]);
    }
    if RequestOutside(all) {
      var i :| 0 <= i < |all| && all[i].Submit? && NotLearning(all[..i]);
      assert i < |steps| ==> steps[i].Submit? && NotLearning(steps[..i]);
    }
  }

  /** The server waits, and no learner has been notified. */
  predicate Lost(s: State) { s.server == ServerWaits && s.agent != AgentWoken }

  /** Where a run from the start stands. */
  ghost predicate Stands(kind: Kind, s: State, steps: seq<Step>) {
    && Inv(kind, s)
    && (NotLearning(steps) <==> s.agent in {Fresh, Done})
    && (RequestOutside(steps) <==> Lost(s))
  }

  lemma StandsNext(kind: Kind, s: State, steps: seq<Step>, step: Step)
    requires Stands(kind, s, steps) && Enabled(s, step)
    ensures Stands(kind, Next(kind, s, step), steps + [step])
  {
    OutsideSnoc(steps, step);
    InvNext(kind, s, step);
    LostNext(kind, s, step);
  }

  /** A request is lost when it is sent while nobody is there to learn, and never found again. */
  lemma LostNext(kind: Kind, s: State, step: Step)
    requires Phases(s) && Enabled(s, step)
    ensures var t := Next(kind, s, step);
            && (Lost(t) <==> Lost(s) || (step.Submit? && s.agent in {Fresh, Done}))
            && (t.agent in {Fresh, Done} <==> step.Quit? || (!step.Begin? && s.agent in {Fresh, Done}))
  {}

  lemma {:induction false} StandsAfter(kind: Kind, steps: seq<Step>)
    ensures After(kind, START, steps).Some? ==> Stands(kind, After(kind, START, steps).value, steps)
  {
    if steps != [] {
      var n := |steps| - 1;
      StandsAfter(kind, steps[..n]);
      var t := After(kind, START, steps[..n]);
      assert steps == steps[..n] + [steps[n]];
      if t.Some? && Enabled(t.value, steps[n]) { StandsNext(kind, t.value, steps[..n], steps[n]); }
    }
  }

  /** In every run: nothing can happen but a learner beginning, and one request is left unanswered, exactly
      when some request was sent while nobody was learning. */
  lemma StuckIff(kind: Kind, steps: seq<Step>)
    requires After(kind, START, steps).Some?
    ensures var s := After(kind, START, steps).value;
            && ((forall step | Enabled(s, step) :: step.Begin?) <==> RequestOutside(steps))
            && (RequestOutside(steps) ==> |s.requests| == |s.responses| + 1)
  {
    StandsAfter(kind, steps);
    if !RequestOutside(steps) { var step := NeverStuck(kind, steps); }
  }

  /** And a learner that begins then does not help: the request stays without an answer whatever follows. */
  lemma {:induction false} NeverAnswered(kind: Kind, steps: seq<Step>, more: seq<Step>)
    requires After(kind, START, steps).Some? && RequestOutside(steps) && After(kind, START, steps + more).Some?
    ensures After(kind, START, steps + more).value.responses == After(kind, START, steps).value.responses
    ensures RequestOutside(steps + more)
    decreases |more|
  {
    if more == [] {
      assert steps + more == steps;
    } else {
      var init, last := more[..|more| - 1], more[|more| - 1];
      assert steps + more == (steps + init) + [last];
      assert (steps + more)[..|steps + more| - 1] == steps + init;
      NeverAnswered(kind, steps, init);
      OutsideSnoc(steps + init, last);
      StuckIff(kind, steps + init);
    }
  }

  /** Otherwise a side can move, and when all that can come is a request, everything asked has been answered. */
  lemma NeverStuck(kind: Kind, steps: seq<Step>) returns (step: Step)
    requires After(kind, START, steps).Some? && !RequestOutside(steps)
    ensures var s := After(kind, START, steps).value;
            Enabled(s, step) && !step.Begin? && (step.Submit? ==> |s.responses| == |s.requests|)
  {
    StandsAfter(kind, steps);
    var s := After(kind, START, steps).value;
    step := match s.server
            case Idle => Submit(Report([], 0.0))
            case ServerWaits => Consume
            case ServerWoken => if s.agent == Learning then NextAction(0) else Return
            case Answering(_) => Respond;
  }

  lemma AfterOne(kind: Kind, steps: seq<Step>, step: Step)
    requires After(kind, START, steps).Some? && Enabled(After(kind, START, steps).value, step)
    ensures After(kind, START, steps + [step]) == Some(Next(kind, After(kind, START, steps).value, step))
  {
    assert (steps + [step])[..|steps|] == steps;
  }

  /** A run with a request before the learner begins; both sides then wait for each other for good. */
  lemma FirstRequestTooEarly(kind: Kind, report: Report, first: Action)
    ensures var steps := [] + [Submit(report)] + [Begin(first)];
            After(kind, START, steps).Some? && forall step :: !Enabled(After(kind, START, steps).value, step)
  {
    AfterOne(kind, [], Submit(report));
    AfterOne(kind, [] + [Submit(report)], Begin(first));
  }

  /** Whenever nobody is learning and a request can be sent, sending it and then beginning leaves both sides
      waiting for each other. */
  lemma RequestAfterQuit(kind: Kind, steps: seq<Step>, report: Report, first: Action)
    requires After(kind, START, steps).Some? && NotLearning(steps)
    requires Enabled(After(kind, START, steps).value, Submit(report))
    ensures var run := steps + [Submit(report)] + [Begin(first)];
            After(kind, START, run).Some? && forall step :: !Enabled(After(kind, START, run).value, step)
  {
    StandsAfter(kind, steps);
    AfterOne(kind, steps, Submit(report));
    AfterOne(kind, steps + [Submit(report)], Begin(first));
    BothWait(kind, After(kind, START, steps).value, report, first);
  }

  lemma BothWait(kind: Kind, s: State, report: Report, first: Action)
    requires Phases(s) && s.agent in {Fresh, Done} && Enabled(s, Submit(report))
    ensures var t := Next(kind, s, Submit(report));
            Enabled(t, Begin(first)) && forall step :: !Enabled(Next(kind, t, Begin(first)), step)
  {}
}
