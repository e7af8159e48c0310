/** `ClientImpl::send`, `send_` and `stop`: who may close the socket, over every interleaving of threads. */
module ClientSocket {
  import opened Wrappers

  type Thread = nat
  type Socket = nat

  // ---- the fields behind `socket_mutex_` ----

  datatype Connection = Connection(
    sock: Option<Socket>,
    inFlight: nat,
    from: Option<Thread>,
    closeWhenDone: bool)

  /** What `shutdown_ssl` and `close_socket` assert. */
  predicate MayClose(c: Connection, me: Thread) { c.inFlight == 0 || c.from == Some(me) }

  /** The locked start of `send_`: a dead socket is closed, a missing one connected (`created` is what the
      system answers), and the request is counted. */
  function Begin(c: Connection, me: Thread, alive: bool, created: Option<Socket>): (Connection, bool) {
    var sock := if c.sock.Some? && alive then c.sock else created;
    if sock.None? then (c.(sock := None, closeWhenDone := false), false)
    else (Connection(sock, c.inFlight + 1, Some(me), false), true)
  }

  /** The locked scope exit of `send_`. */
  function End(c: Connection, closeConnection: bool, ret: bool): Connection
    requires c.inFlight > 0
  {
    Connection(if c.closeWhenDone || closeConnection || !ret then None else c.sock, c.inFlight - 1,
               if c.inFlight == 1 then None else c.from, c.closeWhenDone)
  }

  /** `stop`: with a request under way the socket is only shut down and marked. */
  function Stopped(c: Connection): Connection {
    if c.inFlight > 0 then c.(closeWhenDone := true) else c.(sock := None)
  }

  class ClientImpl {
    var sock: Option<Socket>
    var inFlight: nat
    var from: Option<Thread>
    var closeWhenDone: bool
    /** Sockets shut down while left open. */
    ghost var shut: set<Socket>

    constructor ()
      ensures View() == Connection(None, 0, None, false) && shut == {}
    {
      sock, inFlight, from, closeWhenDone, shut := None, 0, None, false, {};
    }

    function View(): Connection
      reads this
    {
      Connection(sock, inFlight, from, closeWhenDone)
    }

    /** `shutdown_ssl`, `shutdown_socket` and `close_socket` in a row, with their assertion. */
    method CloseSocket(me: Thread)
      requires MayClose(View(), me)
      modifies this
      ensures View() == old(View()).(sock := None)
    {
      if sock == None { return; }
      shut := shut + {sock.value};
      sock := None;
    }

    method Enter(me: Thread, alive: bool, created: Option<Socket>) returns (ok: bool)
      requires MayClose(View(), me)
      modifies this
      ensures (View(), ok) == Begin(old(View()), me, alive, created)
    {
      closeWhenDone := false;
      var isAlive := false;
      if sock.Some? {
        isAlive := alive;
        if !isAlive { CloseSocket(me); }
      }
      if !isAlive {
        if created == None { return false; }
        sock := created;
      }
      if inFlight > 1 { assert from == Some(me); }
      inFlight := inFlight + 1;
      from := Some(me);
      ok := true;
    }

    method Leave(me: Thread, closeConnection: bool, ret: bool)
      requires inFlight > 0 && from == Some(me)
      modifies this
      ensures View() == End(old(View()), closeConnection, ret)
    {
      inFlight := inFlight - 1;
      if inFlight <= 0 {
        assert inFlight == 0;
        from := None;
      }
      if closeWhenDone || closeConnection || !ret { CloseSocket(me); }
    }

    method Stop(me: Thread)
      modifies this
      ensures View() == Stopped(old(View()))
      ensures old(inFlight) > 0 && sock.Some? ==> sock.value in shut
    {
      if inFlight > 0 {
        if sock.Some? { shut := shut + {sock.value}; }
        closeWhenDone := true;
        return;
      }
      CloseSocket(me);
    }
  }

  // ---- threads ----

  /** One call of `send`: waiting for the request mutex; about to enter `send_`, for the first time or
      again; between its two locked sections; or about to release the mutex. */
  datatype Frame = Waiting | Before(first: bool) | Active(first: bool) | Finished

  datatype State = State(conn: Connection, owner: Option<Thread>, depth: nat, stacks: seq<seq<Frame>>)

  datatype Step =
    | Call(me: Thread)
    | Lock(me: Thread)
    | Enter(me: Thread, alive: bool, created: Option<Socket>)
    | CloseEarly(me: Thread)
    | Leave(me: Thread, closeConnection: bool, ret: bool, again: bool)
    | Unlock(me: Thread)
    | Stop(me: Thread)

  function Top(st: seq<Frame>): Option<Frame> { if st == [] then None else Some(st[|st| - 1]) }

  function WithTop(st: seq<Frame>, f: Frame): seq<Frame>
    requires st != []
  {
    st[..|st| - 1] + [f]
  }

  predicate TopIs(st: seq<Frame>, active: bool) {
    st != [] && if active then st[|st| - 1].Active? else st[|st| - 1].Before?
  }

  /** A nested `send`, for a redirect or an authentication, comes from inside an active one. Stopping is
      possible for every thread at any time. */
  predicate Enabled(s: State, step: Step) {
    step.me < |s.stacks| &&
    var st := s.stacks[step.me];
    match step
    case Call(_) => st == [] || TopIs(st, true)
    case Lock(me) => Top(st) == Some(Waiting) && (s.owner == None || s.owner == Some(me))
    case Enter(_, _, _) => TopIs(st, false)
    case CloseEarly(_) => TopIs(st, true)
    case Leave(_, _, ret, again) => TopIs(st, true) && (again ==> !ret && st[|st| - 1].first) && s.conn.inFlight > 0
    case Unlock(_) => Top(st) == Some(Finished) && s.depth > 0
    case Stop(_) => true
  }

  function Next(s: State, step: Step): State
    requires Enabled(s, step)
  {
    var me := step.me;
    var st := s.stacks[me];
    match step
    case Call(_) => s.(stacks := s.stacks[me := st + [Waiting]])
    case Lock(_) => s.(owner := Some(me), depth := s.depth + 1, stacks := s.stacks[me := WithTop(st, Before(true))])
    case Enter(_, alive, created) =>
      var (conn, ok) := Begin(s.conn, me, alive, created);
      s.(conn := conn, stacks := s.stacks[me := WithTop(st, if ok then Active(st[|st| - 1].first) else Finished)])
    case CloseEarly(_) => s.(conn := s.conn.(sock := None))
    case Leave(_, closeConnection, ret, again) =>
      s.(conn := End(s.conn, closeConnection, ret),
         stacks := s.stacks[me := WithTop(st, if again then Before(false) else Finished)])
    case Unlock(_) =>
      s.(owner := if s.depth == 1 then None else s.owner, depth := s.depth - 1, stacks := s.stacks[me := st[..|st| - 1]])
    case Stop(_) => s.(conn := Stopped(s.conn))
  }

  /** The conditions asserted by the code a step runs. */
  predicate AssertionsHold(s: State, step: Step) {
    match step
    case Enter(me, _, _) => MayClose(s.conn, me) && (s.conn.inFlight > 1 ==> s.conn.from == Some(me))
    case CloseEarly(me) => MayClose(s.conn, me)
    case Leave(me, _, _, _) => s.conn.inFlight > 0 && s.conn.from == Some(me)
    case Stop(me) => s.conn.inFlight > 0 || MayClose(s.conn, me)
    case _ => true
  }

  function Start(threads: nat): State {
    State(Connection(None, 0, None, false), None, 0, seq(threads, _ => []))
  }

  function After(s: State, steps: seq<Step>): Option<State> {
    if steps == [] then Some(s)
    else
      match After(s, steps[..|steps| - 1])
      case None => None
      case Some(t) => if Enabled(t, steps[|steps| - 1]) then Some(Next(t, steps[|steps| - 1])) else None
  }

  // ---- what every reachable state satisfies ----

  /** A thread outside the request mutex is idle or waiting for it. */
  predicate Outside(st: seq<Frame>) { st == [] || st == [Waiting] }

  /** Below its last call, a thread's calls are all active. */
  predicate Nested(st: seq<Frame>) { forall i | 0 <= i < |st| - 1 :: st[i].Active? }

  function Actives(st: seq<Frame>): nat {
    if st == [] then 0 else |st| - 1 + if st[|st| - 1].Active? then 1 else 0
  }

  function Locks(st: seq<Frame>): nat {
    if st == [] then 0 else |st| - 1 + if st[|st| - 1].Waiting? then 0 else 1
  }

  /** The mutex is held by one thread, for as many calls as it is inside; the count of requests in flight is
      the number of its active calls, and the recorded thread is that one. */
  ghost predicate Inv(s: State) {
    && (forall t | 0 <= t < |s.stacks| && s.owner != Some(t) :: Outside(s.stacks[t]))
    && match s.owner
       case None => s.depth == 0 && s.conn.inFlight == 0 && s.conn.from == None
       case Some(o) =>
         && o < |s.stacks| && Nested(s.stacks[o]) && s.depth == Locks(s.stacks[o]) > 0
         && s.conn.inFlight == Actives(s.stacks[o])
         && s.conn.from == if s.conn.inFlight == 0 then None else Some(o)
  }

  lemma NestedTop(st: seq<Frame>, f: Frame)
    requires st != [] && Nested(st)
    ensures Nested(WithTop(st, f)) && |WithTop(st, f)| == |st| && WithTop(st, f)[|st| - 1] == f
  {}

  lemma Below(st: seq<Frame>)
    requires |st| > 1 && Nested(st)
    ensures Nested(st[..|st| - 1]) && st[..|st| - 1][|st| - 2].Active?
  {}

  lemma InvNext(s: State, step: Step)
    requires Inv(s) && Enabled(s, step)
    ensures Inv(Next(s, step)) && AssertionsHold(s, step)
  {
    var me := step.me;
    var st := s.stacks[me];
    if s.owner != Some(me) { assert Outside(st); }
    if st != [] && Nested(st) {
      NestedTop(st, Before(true));
      NestedTop(st, Before(false));
      NestedTop(st, Finished);
      NestedTop(st, Active(true));
      NestedTop(st, Active(false));
    }
    if |st| > 1 && Nested(st) { Below(st); }
  }

  lemma {:induction false} Reachable(threads: nat, steps: seq<Step>)
    ensures After(Start(threads), steps).Some? ==> Inv(After(Start(threads), steps).value)
  {
    if steps != [] {
      var n := |steps| - 1;
      Reachable(threads, steps[..n]);
      var t := After(Start(threads), steps[..n]);
      if t.Some? && Enabled(t.value, steps[n]) { InvNext(t.value, steps[n]); }
    }
  }

  // ---- the guarantees ----

  predicate InUse(s: State) { exists t | 0 <= t < |s.stacks| :: exists i | 0 <= i < |s.stacks[t]| :: s.stacks[t][i].Active? }

  /** In every run, whatever step is possible next: its assertions hold; the requests in flight are those
      of the one thread that holds the request mutex; and `stop` leaves a socket in use open. */
  lemma Discipline(threads: nat, steps: seq<Step>, step: Step)
    requires After(Start(threads), steps).Some? && Enabled(After(Start(threads), steps).value, step)
    ensures var s := After(Start(threads), steps).value;
            && AssertionsHold(s, step)
            && (s.conn.inFlight > 0 <==> InUse(s))
            && (s.conn.inFlight > 0 ==> s.owner.Some? && s.conn.from == s.owner)
            && (step.Stop? && InUse(s) ==> Next(s, step).conn.sock == s.conn.sock)
            && (step.Stop? && !InUse(s) ==> Next(s, step).conn.sock == None)
  {
    Reachable(threads, steps);
    var s := After(Start(threads), steps).value;
    InvNext(s, step);
    UseIsCounted(s);
  }

  lemma UseIsCounted(s: State)
    requires Inv(s)
    ensures s.conn.inFlight > 0 <==> InUse(s)
  {
    if s.conn.inFlight > 0 {
      var st := s.stacks[s.owner.value];
      assert st[if |st| > 1 then 0 else |st| - 1].Active?;
    }
    if InUse(s) {
      var t :| 0 <= t < |s.stacks| && exists i | 0 <= i < |s.stacks[t]| :: s.stacks[t][i].Active?;
      var i :| 0 <= i < |s.stacks[t]| && s.stacks[t][i].Active?;
      assert s.owner == Some(t);
    }
  }

  /** Whether some `stop` has met a request in flight since the last entry into `send_`. */
  function Remembered(s: State, steps: seq<Step>): bool {
    if steps == [] then s.conn.closeWhenDone
    else
      var before, step := steps[..|steps| - 1], steps[|steps| - 1];
      if step.Enter? then false
      else Remembered(s, before) || (step.Stop? && After(s, before).Some? && After(s, before).value.conn.inFlight > 0)
  }

  lemma {:induction false} FlagIsMemory(s: State, steps: seq<Step>)
    requires After(s, steps).Some?
    ensures After(s, steps).value.conn.closeWhenDone == Remembered(s, steps)
  {
    if steps != [] { FlagIsMemory(s, steps[..|steps| - 1]); }
  }

  /** When a request ends, an open socket stays open exactly if the request succeeded, wants the connection
      kept, and no `stop` has come since the last entry into `send_`. */
  lemma WhoStaysOpen(threads: nat, steps: seq<Step>, leave: Step)
    requires After(Start(threads), steps).Some? && leave.Leave? && Enabled(After(Start(threads), steps).value, leave)
    ensures var s := After(Start(threads), steps).value;
            Next(s, leave).conn.sock.Some? <==>
              s.conn.sock.Some? && leave.ret && !leave.closeConnection && !Remembered(Start(threads), steps)
    ensures var s := After(Start(threads), steps).value;
            Next(s, leave).conn.sock.Some? ==> Next(s, leave).conn.sock == s.conn.sock
  {
    FlagIsMemory(Start(threads), steps);
  }

  /** The call on top of `me`'s stack runs on a connection. */
  predicate Entered(s: State, me: Thread) { me < |s.stacks| && TopIs(s.stacks[me], true) }

  /** Which socket a request runs on. An open socket found alive is kept, and no answer of the system to a new
      connection matters; without one the entry succeeds exactly if the system connects, and the request runs
      on what it connected. */
  lemma SocketOfEntry(threads: nat, steps: seq<Step>, me: Thread, alive: bool, created: Option<Socket>)
    requires After(Start(threads), steps).Some? && Enabled(After(Start(threads), steps).value, Enter(me, alive, created))
    ensures var s := After(Start(threads), steps).value;
            var t := Next(s, Enter(me, alive, created));
            && (s.conn.sock.Some? && alive ==> Entered(t, me) && t.conn.sock == s.conn.sock)
            && (s.conn.sock.None? || !alive ==> (Entered(t, me) <==> created.Some?) && t.conn.sock == created)
            && t.conn.inFlight == s.conn.inFlight + (if Entered(t, me) then 1 else 0)
            && (Entered(t, me) ==> t.conn.from == Some(me))
            && !t.conn.closeWhenDone
  {
    Reachable(threads, steps);
  }

  /** Every entry finds an open socket alive, every request succeeds and keeps the connection, and nobody
      closes the socket. */
  predicate KeptAlive(steps: seq<Step>) {
    forall i | 0 <= i < |steps| ::
      match steps[i]
      case Enter(_, alive, _) => alive
      case Leave(_, closeConnection, ret, _) => ret && !closeConnection
      case Stop(_) => false
      case CloseEarly(_) => false
      case _ => true
  }

  /** The first socket the system connected for an entry into `send_`. */
  function FirstConnected(steps: seq<Step>): Option<Socket> {
    if steps == [] then None
    else if steps[0].Enter? && steps[0].created.Some? then steps[0].created
    else FirstConnected(steps[1..])
  }

  lemma {:induction false} FirstConnectedMore(steps: seq<Step>, step: Step)
    ensures FirstConnected(steps + [step]) ==
              if FirstConnected(steps).Some? then FirstConnected(steps)
              else if step.Enter? then step.created else None
  {
    if steps == [] {
      assert steps + [step] == [step];
      assert FirstConnected([step][1..]) == None;
    } else {
      assert (steps + [step])[1..] == steps[1..] + [step];
      FirstConnectedMore(steps[1..], step);
    }
  }

  /** In such a run all requests, nested ones and those of other threads included, use the first socket that
      was connected. */
  lemma {:induction false} OneSocket(threads: nat, steps: seq<Step>)
    requires KeptAlive(steps) && After(Start(threads), steps).Some?
    ensures After(Start(threads), steps).value.conn.sock == FirstConnected(steps)
    ensures !After(Start(threads), steps).value.conn.closeWhenDone
    decreases |steps|
  {
    if steps != [] {
      var before, step := steps[..|steps| - 1], steps[|steps| - 1];
      assert steps == before + [step];
      assert forall i | 0 <= i < |before| :: before[i] == steps[i];
      OneSocket(threads, before);
      FirstConnectedMore(before, step);
    }
  }

  predicate NoEntry(steps: seq<Step>) { forall i | 0 <= i < |steps| :: !steps[i].Enter? }

  /** Marked for closing, and closed once nothing is in flight. */
  ghost predicate Marked(s: State) { s.conn.closeWhenDone && (s.conn.inFlight == 0 ==> s.conn.sock == None) }

  lemma {:induction false} MarkStays(s: State, steps: seq<Step>)
    requires Marked(s) && NoEntry(steps) && After(s, steps).Some?
    ensures Marked(After(s, steps).value)
  {
    if steps != [] {
      var n := |steps| - 1;
      MarkStays(s, steps[..n]);
      assert !steps[n].Enter?;
    }
  }

  /** A `stop` that meets a request in flight, with no entry into `send_` after it, has the socket closed by
      the time the count is back to zero. */
  lemma StopTakesEffect(s: State, me: Thread, rest: seq<Step>)
    requires me < |s.stacks| && s.conn.inFlight > 0 && NoEntry(rest) && After(Next(s, Stop(me)), rest).Some?
    ensures var t := After(Next(s, Stop(me)), rest).value;
            t.conn.inFlight == 0 ==> t.conn.sock == None
  {
    MarkStays(Next(s, Stop(me)), rest);
  }

  lemma AfterMore(s: State, steps: seq<Step>, t: State, step: Step)
    requires After(s, steps) == Some(t) && Enabled(t, step)
    ensures After(s, steps + [step]) == Some(Next(t, step))
  {
    assert (steps + [step])[..|steps|] == steps;
  }

  /** A run that begins with a `stop` and ends with nothing in flight and the socket open. */
  ghost predicate EndsOpen(s: State, steps: seq<Step>, other: Thread, fd: Socket) {
    && steps != [] && steps[0] == Stop(other) && After(s, steps).Some?
    && After(s, steps).value.conn == Connection(Some(fd), 0, None, false)
  }

  /** With an entry after it the `stop` is forgotten: a nested request on a new socket leaves that one open
      although nothing is in flight any more. */
  lemma StopForgotten(s: State, me: Thread, other: Thread, fd: Socket)
    requires Inv(s) && me < |s.stacks| && other < |s.stacks| && s.stacks[me] == [Active(true)]
    ensures exists steps :: EndsOpen(s, steps, other, fd)
  {
    assert s.owner == Some(me) && s.conn.inFlight == 1;
    var steps, end := OneMore(s, [], s, Stop(other));
    steps, end := OneMore(s, steps, end, Call(me));
    assert end.stacks[me] == [Active(true), Waiting];
    steps, end := OneMore(s, steps, end, Lock(me));
    assert end.stacks[me] == [Active(true), Before(true)];
    steps, end := OneMore(s, steps, end, Enter(me, false, Some(fd)));
    assert end.stacks[me] == [Active(true), Active(true)];
    steps, end := OneMore(s, steps, end, Leave(me, false, true, false));
    assert end.stacks[me] == [Active(true), Finished];
    steps, end := OneMore(s, steps, end, Unlock(me));
    assert end.stacks[me] == [Active(true)];
    steps, end := OneMore(s, steps, end, Leave(me, false, true, false));
    assert EndsOpen(s, steps, other, fd);
  }

  /** A run in which a `stop` meets a request in flight and is forgotten. */
  ghost predicate ForgetsStop(threads: nat, steps: seq<Step>, k: nat, other: Thread, fd: Socket) {
    && k < |steps| && steps[k] == Stop(other)
    && After(Start(threads), steps[..k]).Some? && After(Start(threads), steps[..k]).value.conn.inFlight > 0
    && After(Start(threads), steps).Some?
    && After(Start(threads), steps).value.conn == Connection(Some(fd), 0, None, false)
  }

  /** Such runs exist from the start, whichever threads they are. */
  lemma StopForgottenInRun(threads: nat, me: Thread, other: Thread, first: Socket, fd: Socket)
    requires me < threads && other < threads
    ensures exists steps, k :: ForgetsStop(threads, steps, k, other, fd)
  {
    var before, s := RunToActive(threads, me, first);
    StopForgotten(s, me, other, fd);
    var rest :| EndsOpen(s, rest, other, fd);
    StopInside(threads, before, s, rest, other, fd);
  }

  lemma RunToActive(threads: nat, me: Thread, first: Socket) returns (before: seq<Step>, s: State)
    requires me < threads
    ensures After(Start(threads), before) == Some(s) && |s.stacks| == threads
    ensures Inv(s) && s.stacks[me] == [Active(true)] && s.conn.inFlight > 0
  {
    var start := Start(threads);
    before, s := OneMore(start, [], start, Call(me));
    assert s.stacks[me] == [Waiting];
    before, s := OneMore(start, before, s, Lock(me));
    assert s.stacks[me] == [Before(true)];
    before, s := OneMore(start, before, s, Enter(me, false, Some(first)));
    assert s.stacks[me] == [Active(true)];
    Reachable(threads, before);
  }

  lemma StopInside(threads: nat, before: seq<Step>, s: State, rest: seq<Step>, other: Thread, fd: Socket)
    requires After(Start(threads), before) == Some(s) && s.conn.inFlight > 0 && EndsOpen(s, rest, other, fd)
    ensures ForgetsStop(threads, before + rest, |before|, other, fd)
  {
    AfterConcat(Start(threads), before, s, rest);
    assert (before + rest)[..|before|] == before && (before + rest)[|before|] == rest[0];
  }

  lemma {:induction false} AfterConcat(s: State, a: seq<Step>, t: State, b: seq<Step>)
    requires After(s, a) == Some(t)
    ensures After(s, a + b) == After(t, b)
    decreases |b|
  {
    if b == [] {
      assert a + b == a;
    } else {
      var init, last := b[..|b| - 1], b[|b| - 1];
      assert b == init + [last] && a + b == (a + init) + [last];
      AfterConcat(s, a, t, init);
      AfterSnoc(s, a + init, last);
      AfterSnoc(t, init, last);
    }
  }

  function StepOn(o: Option<State>, step: Step): Option<State> {
    match o
    case None => None
    case Some(t) => if Enabled(t, step) then Some(Next(t, step)) else None
  }

  lemma AfterSnoc(s: State, steps: seq<Step>, step: Step)
    ensures After(s, steps + [step]) == StepOn(After(s, steps), step)
  {
    assert (steps + [step])[..|steps|] == steps;
  }

  lemma OneMore(s: State, steps: seq<Step>, t: State, step: Step) returns (more: seq<Step>, next: State)
    requires After(s, steps) == Some(t) && Enabled(t, step)
    ensures more == steps + [step] && next == Next(t, step) && After(s, more) == Some(next)
  {
    AfterMore(s, steps, t, step);
    more, next := steps + [step], Next(t, step);
  }
}
