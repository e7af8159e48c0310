/** `ThreadPool`: the sections its mutex makes atomic, and every interleaving of them. */
module ThreadPool {
  import opened Wrappers

  /** A task, told apart from others by its number. */
  type Job = nat

  // ---- the state behind the mutex ----

  datatype Shared = Shared(jobs: seq<Job>, stopping: bool)

  datatype Outcome = Sleep | Exit | Run(job: Job)

  function Push(s: Shared, limit: nat, job: Job): (Shared, bool) {
    if limit > 0 && |s.jobs| >= limit then (s, false) else (s.(jobs := s.jobs + [job]), true)
  }

  function Take(s: Shared): (Shared, Outcome) {
    if s.jobs != [] then (s.(jobs := s.jobs[1..]), Run(s.jobs[0]))
    else (s, if s.stopping then Exit else Sleep)
  }

  class Pool {
    const maxQueued: nat
    var jobs: seq<Job>
    var stopping: bool

    constructor (maxQueued: nat)
      ensures this.maxQueued == maxQueued && View() == Shared([], false)
    {
      this.maxQueued, jobs, stopping := maxQueued, [], false;
    }

    function View(): Shared
      reads this
    {
      Shared(jobs, stopping)
    }

    /** The locked part of `enqueue`. */
    method Enqueue(job: Job) returns (accepted: bool)
      modifies this
      ensures (View(), accepted) == Push(old(View()), maxQueued, job)
      ensures accepted <==> maxQueued == 0 || |old(jobs)| < maxQueued
      ensures jobs == if accepted then old(jobs) + [job] else old(jobs)
      ensures maxQueued > 0 && |old(jobs)| <= maxQueued ==> |jobs| <= maxQueued
    {
      if maxQueued > 0 && |jobs| >= maxQueued { return false; }
      jobs := jobs + [job];
      accepted := true;
    }

    /** The locked part of a worker's round: wait while there is neither a job nor a shutdown. */
    method WorkerRound() returns (outcome: Outcome)
      modifies this
      ensures (View(), outcome) == Take(old(View()))
      ensures outcome == Sleep <==> !(jobs != [] || stopping) && old(jobs) == []
    {
      if !(jobs != [] || stopping) { return Sleep; }
      if stopping && jobs == [] { return Exit; }
      var job := jobs[0];
      jobs := jobs[1..];
      outcome := Run(job);
    }

    /** The locked part of `shutdown`. */
    method Stop()
      modifies this
      ensures View() == old(View()).(stopping := true)
    {
      stopping := true;
    }
  }

  // ---- workers, pending notifications and what has happened ----

  datatype Worker = Ready | Asleep | Running(job: Job) | Exited

  datatype State = State(
    shared: Shared,
    workers: seq<Worker>,
    notifies: nat,
    notifyAll: bool,
    accepted: seq<Job>,
    taken: seq<Job>,
    finished: seq<Job>,
    late: seq<Job>)

  /** A step of some thread. The notifications of `enqueue` and `shutdown` come after the unlock. */
  datatype Step =
    | Enqueue(job: Job)
    | NotifyOne(w: nat)
    | Round(w: nat)
    | Finish(w: nat)
    | WakeUp(w: nat)
    | Shutdown
    | NotifyAll

  predicate Is(s: State, w: nat, x: Worker) { w < |s.workers| && s.workers[w] == x }

  predicate SomeAsleep(ws: seq<Worker>) { Asleep in ws }

  predicate AllExited(ws: seq<Worker>) { forall i | 0 <= i < |ws| :: ws[i] == Exited }

  predicate Enabled(s: State, step: Step) {
    match step
    case Enqueue(_) => true
    case NotifyOne(w) => s.notifies > 0 && (SomeAsleep(s.workers) ==> Is(s, w, Asleep))
    case Round(w) => Is(s, w, Ready)
    case Finish(w) => w < |s.workers| && s.workers[w].Running?
    case WakeUp(w) => Is(s, w, Asleep)
    case Shutdown => true
    case NotifyAll => s.notifyAll
  }

  function Awaken(ws: seq<Worker>): (r: seq<Worker>)
    ensures |r| == |ws| && forall i | 0 <= i < |ws| :: r[i] == if ws[i] == Asleep then Ready else ws[i]
  {
    seq(|ws|, i requires 0 <= i < |ws| => if ws[i] == Asleep then Ready else ws[i])
  }

  function AfterPush(s: State, limit: nat, job: Job): State {
    var (shared, ok) := Push(s.shared, limit, job);
    if !ok then s
    else s.(shared := shared, notifies := s.notifies + 1, accepted := s.accepted + [job],
            late := if AllExited(s.workers) then s.late + [job] else s.late)
  }

  function AfterRound(s: State, w: nat): State
    requires w < |s.workers|
  {
    var (shared, outcome) := Take(s.shared);
    match outcome
    case Sleep => s.(workers := s.workers[w := Asleep])
    case Exit => s.(workers := s.workers[w := Exited])
    case Run(job) => s.(shared := shared, workers := s.workers[w := Running(job)], taken := s.taken + [job])
  }

  function Next(s: State, limit: nat, step: Step): State
    requires Enabled(s, step)
  {
    match step
    case Enqueue(job) => AfterPush(s, limit, job)
    case NotifyOne(w) =>
      s.(notifies := s.notifies - 1, workers := if SomeAsleep(s.workers) then s.workers[w := Ready] else s.workers)
    case Round(w) => AfterRound(s, w)
    case Finish(w) => s.(workers := s.workers[w := Ready], finished := s.finished + [s.workers[w].job])
    case WakeUp(w) => s.(workers := s.workers[w := Ready])
    case Shutdown => s.(shared := s.shared.(stopping := true), notifyAll := true)
    case NotifyAll => s.(notifyAll := false, workers := Awaken(s.workers))
  }

  function Start(workers: nat): State {
    State(Shared([], false), seq(workers, _ => Ready), 0, false, [], [], [], [])
  }

  /** The state a run of steps leads to, if each was possible when its turn came. */
  function After(s: State, limit: nat, steps: seq<Step>): Option<State> {
    if steps == [] then Some(s)
    else
      match After(s, limit, steps[..|steps| - 1])
      case None => None
      case Some(t) => if Enabled(t, steps[|steps| - 1]) then Some(Next(t, limit, steps[|steps| - 1])) else None
  }

  // ---- what every reachable state satisfies ----

  /** How often a job occurs in a list. */
  function Times(jobs: seq<Job>, job: Job): nat {
    if jobs == [] then 0 else Times(jobs[..|jobs| - 1], job) + if jobs[|jobs| - 1] == job then 1 else 0
  }

  lemma TimesMore(jobs: seq<Job>, next: Job, job: Job)
    ensures Times(jobs + [next], job) == Times(jobs, job) + if next == job then 1 else 0
  {
    assert (jobs + [next])[..|jobs|] == jobs;
  }

  lemma {:induction false} TimesAppend(a: seq<Job>, b: seq<Job>, job: Job)
    ensures Times(a + b, job) == Times(a, job) + Times(b, job)
  {
    if b == [] {
      assert a + b == a;
    } else {
      var n := |b| - 1;
      assert a + b == a + b[..n] + [b[n]];
      TimesMore(a + b[..n], b[n], job);
      TimesAppend(a, b[..n], job);
    }
  }

  lemma {:induction false} TimesIn(jobs: seq<Job>, job: Job)
    requires job in jobs
    ensures Times(jobs, job) > 0
  {
    var n := |jobs| - 1;
    if jobs[n] != job { TimesIn(jobs[..n], job); }
  }

  function Hold(w: Worker, job: Job): nat { if w == Running(job) then 1 else 0 }

  /** How many workers are running a job. */
  function Held(ws: seq<Worker>, job: Job): nat {
    if ws == [] then 0 else Held(ws[..|ws| - 1], job) + Hold(ws[|ws| - 1], job)
  }

  lemma {:induction false} HeldUpdate(ws: seq<Worker>, w: nat, x: Worker, job: Job)
    requires w < |ws|
    ensures Held(ws[w := x], job) + Hold(ws[w], job) == Held(ws, job) + Hold(x, job)
    decreases |ws|
  {
    var n := |ws| - 1;
    var t := ws[w := x];
    if w == n {
      assert t[..n] == ws[..n];
    } else {
      assert t[..n] == ws[..n][w := x];
      HeldUpdate(ws[..n], w, x, job);
    }
  }

  lemma {:induction false} HeldNone(ws: seq<Worker>, job: Job)
    requires forall i | 0 <= i < |ws| :: !ws[i].Running?
    ensures Held(ws, job) == 0
  {
    if ws != [] { HeldNone(ws[..|ws| - 1], job); }
  }

  lemma {:induction false} HeldAwaken(ws: seq<Worker>, job: Job)
    ensures Held(Awaken(ws), job) == Held(ws, job)
  {
    if ws != [] {
      var n := |ws| - 1;
      assert Awaken(ws)[..n] == Awaken(ws[..n]);
      HeldAwaken(ws[..n], job);
    }
  }

  /** Nothing lost, nothing reordered, nothing over the limit. */
  ghost predicate Kept(s: State, limit: nat) {
    && s.taken + s.shared.jobs == s.accepted
    && (limit > 0 ==> |s.shared.jobs| <= limit)
  }

  /** A job has been finished or is in hand as often as it was taken. */
  predicate Accounted(s: State, job: Job) {
    Times(s.finished, job) + Held(s.workers, job) == Times(s.taken, job)
  }

  /** Once the last worker is gone, only later arrivals are left over. */
  ghost predicate Leftovers(s: State) {
    && (Exited in s.workers ==> s.shared.stopping)
    && (if AllExited(s.workers) then s.shared.jobs == s.late else s.late == [])
  }

  predicate Awake(ws: seq<Worker>) { exists i | 0 <= i < |ws| :: ws[i] == Ready || ws[i].Running? }

  /** No wake-up is lost: work with everybody asleep has a notification on its way. */
  ghost predicate Watched(s: State) {
    && (s.shared.jobs != [] && SomeAsleep(s.workers) ==> Awake(s.workers) || s.notifies > 0 || s.notifyAll)
    && (s.shared.stopping && SomeAsleep(s.workers) ==> s.notifyAll)
  }

  ghost predicate Inv(s: State, limit: nat) { Kept(s, limit) && Leftovers(s) && Watched(s) && forall job :: Accounted(s, job) }

  lemma KeptNext(s: State, limit: nat, step: Step)
    requires Kept(s, limit) && Enabled(s, step)
    ensures Kept(Next(s, limit, step), limit)
  {
    if step.Enqueue? {
      assert s.taken + (s.shared.jobs + [step.job]) == s.taken + s.shared.jobs + [step.job];
    } else if step.Round? && s.shared.jobs != [] {
      var j := s.shared.jobs;
      assert s.taken + [j[0]] + j[1..] == s.taken + j;
    }
  }

  lemma AccountedNext(s: State, limit: nat, step: Step, job: Job)
    requires Accounted(s, job) && Enabled(s, step)
    ensures Accounted(Next(s, limit, step), job)
  {
    match step
    case Enqueue(_) =>
    case Shutdown =>
    case NotifyAll => HeldAwaken(s.workers, job);
    case NotifyOne(w) => if SomeAsleep(s.workers) { WokenHolds(s.workers, w, job); }
    case WakeUp(w) => WokenHolds(s.workers, w, job);
    case Finish(w) => FinishAccounted(s, w, job);
    case Round(w) => RoundAccounted(s, w, job);
  }

  lemma WokenHolds(ws: seq<Worker>, w: nat, job: Job)
    requires w < |ws| && ws[w] == Asleep
    ensures Held(ws[w := Ready], job) == Held(ws, job)
  {
    HeldUpdate(ws, w, Ready, job);
  }

  lemma FinishAccounted(s: State, w: nat, job: Job)
    requires Accounted(s, job) && w < |s.workers| && s.workers[w].Running?
    ensures Times(s.finished + [s.workers[w].job], job) + Held(s.workers[w := Ready], job) == Times(s.taken, job)
  {
    HeldUpdate(s.workers, w, Ready, job);
    TimesMore(s.finished, s.workers[w].job, job);
  }

  lemma RoundAccounted(s: State, w: nat, job: Job)
    requires Accounted(s, job) && Is(s, w, Ready)
    ensures Accounted(AfterRound(s, w), job)
  {
    HeldUpdate(s.workers, w, AfterRound(s, w).workers[w], job);
    if s.shared.jobs != [] { TimesMore(s.taken, s.shared.jobs[0], job); }
  }

  lemma LeftoversNext(s: State, limit: nat, step: Step)
    requires Leftovers(s) && Enabled(s, step)
    ensures Leftovers(Next(s, limit, step))
  {
    var t := Next(s, limit, step);
    if !step.Enqueue? && !step.Shutdown? && !step.NotifyAll? && step.w < |s.workers| {
      var w := step.w;
      assert t.workers[w] == Exited || t.workers == s.workers || !AllExited(t.workers);
      assert s.workers[w] != Exited ==> !AllExited(s.workers);
      if Exited in t.workers && t.workers != s.workers && t.workers[w] != Exited {
        var i :| 0 <= i < |t.workers| && t.workers[i] == Exited;
        assert s.workers[i] == Exited;
      }
    } else if step.NotifyAll? {
      if Exited in t.workers {
        var i :| 0 <= i < |t.workers| && t.workers[i] == Exited;
        assert s.workers[i] == Exited;
      }
      if !AllExited(s.workers) {
        var i :| 0 <= i < |s.workers| && s.workers[i] != Exited;
        assert t.workers[i] != Exited;
      }
    }
  }

  lemma WatchedNext(s: State, limit: nat, step: Step)
    requires Watched(s) && Enabled(s, step)
    ensures Watched(Next(s, limit, step))
  {
    var t := Next(s, limit, step);
    if SomeAsleep(t.workers) && t.workers != s.workers {
      var i :| 0 <= i < |t.workers| && t.workers[i] == Asleep;
      if step.Round? && t.workers[step.w] == Asleep {
      } else if step.NotifyAll? {
      } else {
        assert s.workers[i] == Asleep;
        assert t.workers[step.w] == Ready || t.workers[step.w].Running? || t.workers[step.w] == Exited;
      }
    }
  }

  lemma {:induction false} Reachable(workers: nat, limit: nat, steps: seq<Step>)
    ensures After(Start(workers), limit, steps).Some? ==> Inv(After(Start(workers), limit, steps).value, limit)
  {
    if steps == [] {
      forall job ensures Accounted(Start(workers), job) { HeldNone(Start(workers).workers, job); }
    } else {
      var n := |steps| - 1;
      Reachable(workers, limit, steps[..n]);
      var t := After(Start(workers), limit, steps[..n]);
      if t.Some? && Enabled(t.value, steps[n]) { InvNext(t.value, limit, steps[n]); }
    }
  }

  lemma InvNext(s: State, limit: nat, step: Step)
    requires Inv(s, limit) && Enabled(s, step)
    ensures Inv(Next(s, limit, step), limit)
  {
    KeptNext(s, limit, step);
    LeftoversNext(s, limit, step);
    WatchedNext(s, limit, step);
    forall job ensures Accounted(Next(s, limit, step), job) { AccountedNext(s, limit, step, job); }
  }

  // ---- the guarantees ----

  /** In every run: jobs leave in the order they came, the limit holds, and no job is run more often than
      it was taken. */
  lemma NothingLostOrRepeated(workers: nat, limit: nat, steps: seq<Step>, job: Job)
    requires After(Start(workers), limit, steps).Some?
    ensures var s := After(Start(workers), limit, steps).value;
            && s.taken + s.shared.jobs == s.accepted && (limit > 0 ==> |s.shared.jobs| <= limit)
            && Times(s.finished, job) <= Times(s.taken, job) <= Times(s.accepted, job)
  {
    Reachable(workers, limit, steps);
    var s := After(Start(workers), limit, steps).value;
    assert Accounted(s, job);
    TimesAppend(s.taken, s.shared.jobs, job);
  }

  /** In every run a job is turned away only at the limit, and then nothing changes; any other is accepted, even
      behind a shutdown, and somebody is told. */
  lemma TurnedAwayAtLimit(workers: nat, limit: nat, steps: seq<Step>, job: Job)
    requires After(Start(workers), limit, steps).Some?
    ensures var s := After(Start(workers), limit, steps).value;
            var t := Next(s, limit, Enqueue(job));
            if limit > 0 && |s.shared.jobs| == limit then t == s
            else t.accepted == s.accepted + [job] && t.shared.jobs == s.shared.jobs + [job] && t.notifies == s.notifies + 1
                 && t.workers == s.workers && t.shared.stopping == s.shared.stopping
  {
    Reachable(workers, limit, steps);
  }

  /** When every worker has gone, each job has been run exactly as often as it was accepted, if and only if
      no job was accepted after the last worker left. */
  lemma AllRunOnce(workers: nat, limit: nat, steps: seq<Step>)
    requires After(Start(workers), limit, steps).Some?
    requires AllExited(After(Start(workers), limit, steps).value.workers)
    ensures var s := After(Start(workers), limit, steps).value;
            (forall job :: Times(s.finished, job) == Times(s.accepted, job)) <==> s.late == []
  {
    Reachable(workers, limit, steps);
    var s := After(Start(workers), limit, steps).value;
    forall job ensures Times(s.accepted, job) == Times(s.finished, job) + Times(s.late, job) {
      assert Accounted(s, job);
      HeldNone(s.workers, job);
      TimesAppend(s.taken, s.shared.jobs, job);
    }
    if s.late != [] {
      TimesIn(s.late, s.late[0]);
      assert Times(s.finished, s.late[0]) != Times(s.accepted, s.late[0]);
    } else {
      forall job ensures Times(s.late, job) == 0 {}
    }
  }

  /** A worker or a pending notification can always move while there is a job or a shutdown to attend to. */
  lemma NeverStuck(workers: nat, limit: nat, steps: seq<Step>) returns (step: Step)
    requires After(Start(workers), limit, steps).Some?
    requires var s := After(Start(workers), limit, steps).value;
             (s.shared.jobs != [] || s.shared.stopping) && !AllExited(s.workers)
    ensures Enabled(After(Start(workers), limit, steps).value, step)
    ensures step.Round? || step.Finish? || step.NotifyOne? || step.NotifyAll?
  {
    Reachable(workers, limit, steps);
    var s := After(Start(workers), limit, steps).value;
    if Awake(s.workers) {
      var i :| 0 <= i < |s.workers| && (s.workers[i] == Ready || s.workers[i].Running?);
      step := if s.workers[i] == Ready then Round(i) else Finish(i);
    } else {
      var i :| 0 <= i < |s.workers| && s.workers[i] != Exited;
      assert s.workers[i] == Asleep;
      step := if s.notifyAll then NotifyAll else NotifyOne(i);
    }
  }

  function Weight(w: Worker): nat {
    match w
    case Exited => 0
    case Ready => 1
    case Asleep => 2
    case Running(_) => 2
  }

  function Weights(ws: seq<Worker>): nat {
    if ws == [] then 0 else Weights(ws[..|ws| - 1]) + Weight(ws[|ws| - 1])
  }

  lemma {:induction false} WeightsUpdate(ws: seq<Worker>, w: nat, x: Worker)
    requires w < |ws|
    ensures Weights(ws[w := x]) + Weight(ws[w]) == Weights(ws) + Weight(x)
    decreases |ws|
  {
    var n := |ws| - 1;
    var t := ws[w := x];
    if w == n {
      assert t[..n] == ws[..n];
    } else {
      assert t[..n] == ws[..n][w := x];
      WeightsUpdate(ws[..n], w, x);
    }
  }

  lemma {:induction false} WeightsAwaken(ws: seq<Worker>)
    ensures Weights(Awaken(ws)) <= Weights(ws)
  {
    if ws != [] {
      var n := |ws| - 1;
      assert Awaken(ws)[..n] == Awaken(ws[..n]);
      WeightsAwaken(ws[..n]);
    }
  }

  function WorkLeft(s: State): nat {
    2 * |s.shared.jobs| + Weights(s.workers) + s.notifies + if s.notifyAll then 1 else 0
  }

  /** Once shutdown has begun, every step of a worker or a notification brings the end nearer: with
      `NeverStuck`, joining the workers ends unless jobs keep coming. */
  lemma ShutdownProgress(s: State, limit: nat, step: Step)
    requires Enabled(s, step) && s.shared.stopping && !step.Enqueue? && !step.Shutdown?
    ensures WorkLeft(Next(s, limit, step)) < WorkLeft(s) && Next(s, limit, step).shared.stopping
  {
    match step
    case NotifyAll => WeightsAwaken(s.workers);
    case NotifyOne(w) => if SomeAsleep(s.workers) { WeightsUpdate(s.workers, w, Ready); }
    case WakeUp(w) => WeightsUpdate(s.workers, w, Ready);
    case Finish(w) => WeightsUpdate(s.workers, w, Ready);
    case Round(w) => WeightsUpdate(s.workers, w, Next(s, limit, step).workers[w]);
  }
}
