/** The threads around leadership (jocko/leader.go): the monitor that Raft notifies, the leader
    loops it starts and stops, and the flag that lets this broker serve consistent reads. */
module Leadership {

  /** A leader loop, from its start to the end of its deferred calls. The barrier is the write that
      waits until all earlier commands are applied. */
  datatype Loop =
    | Starting                    // before the barrier of this term
    | Waiting(established: bool)  // in the select
    | Leaving(established: bool)  // returned, deferred calls to run
    | Done

  /** The monitor selects, or waits for the loop it has told to stop, or has returned. */
  datatype Monitor = Selecting | Stopping | Returned

  /** Loops are numbered by the channel that stops them; `current` is weAreLeaderCh. `passed` holds
      the loops whose barrier has succeeded. */
  datatype State = State(
    monitor: Monitor, current: int, loops: seq<Loop>, closed: set<int>, passed: set<int>, ready: bool, shutdown: bool)

  const NONE := -1
  const INIT := State(Selecting, NONE, [], {}, {}, false, false)

  ghost predicate Acquire(s: State, t: State) {
    && s.monitor.Selecting?
    && t == if s.current != NONE then s
            else s.(current := |s.loops|, loops := s.loops + [Starting])
  }

  ghost predicate Lose(s: State, t: State) {
    && s.monitor.Selecting?
    && t == if s.current == NONE then s
            else s.(monitor := Stopping, closed := s.closed + {s.current})
  }

  /** leaderLoop.Wait returns when no loop is left. */
  ghost predicate Stopped(s: State, t: State) {
    && s.monitor.Stopping?
    && (forall l :: 0 <= l < |s.loops| ==> s.loops[l].Done?)
    && t == s.(monitor := Selecting, current := NONE)
  }

  ghost predicate Shutdown(s: State, t: State) {
    t == s.(shutdown := true)
  }

  ghost predicate Return(s: State, t: State) {
    s.monitor.Selecting? && s.shutdown && t == s.(monitor := Returned)
  }

  /** The barrier fails, or succeeds and makes the broker ready the first time. The interval leads
      back to the barrier from the select. */
  ghost predicate Barrier(s: State, t: State, l: int, applied: bool) {
    && 0 <= l < |s.loops| && (s.loops[l].Starting? || s.loops[l].Waiting?)
    && var was := s.loops[l].Waiting? && s.loops[l].established;
       t == if !applied then s.(loops := s.loops[l := Waiting(was)])
            else s.(loops := s.loops[l := Waiting(true)], passed := s.passed + {l}, ready := s.ready || !was)
  }

  ghost predicate Leave(s: State, t: State, l: int) {
    && 0 <= l < |s.loops| && s.loops[l].Waiting? && (l in s.closed || s.shutdown)
    && t == s.(loops := s.loops[l := Leaving(s.loops[l].established)])
  }

  /** The deferred revocation, if leadership was established, then leaderLoop.Done. */
  ghost predicate Revoke(s: State, t: State, l: int) {
    && 0 <= l < |s.loops| && s.loops[l].Leaving?
    && t == if s.loops[l].established then s.(loops := s.loops[l := Leaving(false)], ready := false)
            else s.(loops := s.loops[l := Done])
  }

  ghost predicate Next(s: State, t: State) {
    || Acquire(s, t) || Lose(s, t) || Stopped(s, t) || Shutdown(s, t) || Return(s, t)
    || (exists l, applied :: Barrier(s, t, l, applied))
    || (exists l :: Leave(s, t, l))
    || (exists l :: Revoke(s, t, l))
  }

  ghost predicate Established(l: Loop) {
    (l.Waiting? || l.Leaving?) && l.established
  }

  ghost predicate Inv(s: State) {
    // only the current loop is alive
    && (s.current == NONE || s.current == |s.loops| - 1 >= 0)
    && (forall l :: 0 <= l < |s.loops| && !s.loops[l].Done? ==> l == s.current)
    // the flag is up exactly while the current loop has established itself
    && (s.ready <==> s.current != NONE && Established(s.loops[s.current]))
    && (forall l :: 0 <= l < |s.loops| && Established(s.loops[l]) ==> l in s.passed)
    && (s.monitor.Stopping? ==> s.current != NONE && s.current in s.closed)
    && (s.current != NONE && s.current in s.closed ==> s.monitor.Stopping?)
    && (forall l :: 0 <= l < |s.loops| && s.loops[l].Leaving? ==> l in s.closed || s.shutdown)
    && forall l :: l in s.closed || l in s.passed ==> 0 <= l < |s.loops|
  }

  lemma MonitorInv(s: State, t: State)
    requires Inv(s) && (Acquire(s, t) || Lose(s, t) || Stopped(s, t) || Shutdown(s, t) || Return(s, t))
    ensures Inv(t)
  {}

  lemma BarrierInv(s: State, t: State, l: int, applied: bool)
    requires Inv(s) && Barrier(s, t, l, applied)
    ensures Inv(t)
  {}

  lemma LeaveInv(s: State, t: State, l: int)
    requires Inv(s) && Leave(s, t, l)
    ensures Inv(t)
  {}

  lemma RevokeInv(s: State, t: State, l: int)
    requires Inv(s) && Revoke(s, t, l)
    ensures Inv(t)
  {}

  /** Every step of every thread keeps the invariant. */
  lemma NextInv(s: State, t: State)
    requires Inv(s) && Next(s, t)
    ensures Inv(t)
  {
    hide Inv, Acquire, Lose, Stopped, Shutdown, Return, Barrier, Leave, Revoke;
    if Acquire(s, t) || Lose(s, t) || Stopped(s, t) || Shutdown(s, t) || Return(s, t) {
      MonitorInv(s, t);
    } else if l, applied :| Barrier(s, t, l, applied) {
      BarrierInv(s, t, l, applied);
    } else if l :| Leave(s, t, l) {
      LeaveInv(s, t, l);
    } else {
      var l :| Revoke(s, t, l);
      RevokeInv(s, t, l);
    }
  }

  ghost predicate Execution(run: seq<State>) {
    && run != [] && run[0] == INIT
    && forall i :: 0 <= i < |run| - 1 ==> Next(run[i], run[i + 1])
  }

  lemma {:induction false} ExecutionInv(run: seq<State>, i: nat)
    requires Execution(run) && i < |run|
    ensures Inv(run[i])
  {
    hide Next, Inv;
    if i == 0 {
      InitInv();
    } else {
      ExecutionInv(run, i - 1);
      assert Next(run[i - 1], run[i - 1 + 1]);
      NextInv(run[i - 1], run[i]);
    }
  }

  lemma InitInv()
    ensures Inv(INIT)
  {}

  /** However the threads interleave: at most one leader loop is alive. */
  lemma OneLoop(run: seq<State>, i: nat, k: nat, l: nat)
    requires Execution(run) && i < |run| && k < l < |run[i].loops|
    ensures run[i].loops[k].Done? || run[i].loops[l].Done?
  {
    hide Execution;
    ExecutionInv(run, i);
  }

  /** The broker is ready for consistent reads exactly while a loop that has established itself is
      alive, and that loop's own barrier has succeeded. */
  lemma ReadyMeansEstablished(run: seq<State>, i: nat)
    requires Execution(run) && i < |run|
    ensures run[i].ready <==> exists l :: 0 <= l < |run[i].loops| && Established(run[i].loops[l])
    ensures forall l :: 0 <= l < |run[i].loops| && Established(run[i].loops[l]) ==> l in run[i].passed
  {
    hide Execution;
    ExecutionInv(run, i);
  }

  /** Once the monitor has seen leadership lost, the broker is not ready until a new loop's barrier
      succeeds. */
  lemma LostMeansNotReady(run: seq<State>, i: nat)
    requires Execution(run) && i < |run| && run[i].current == NONE
    ensures !run[i].ready && forall l :: 0 <= l < |run[i].loops| ==> run[i].loops[l].Done?
  {
    hide Execution;
    ExecutionInv(run, i);
  }

  /** The broker stays ready until leadership is lost or it shuts down. */
  lemma ReadyUntilLost(run: seq<State>, i: nat)
    requires Execution(run) && i < |run| - 1 && run[i].ready && !run[i + 1].ready
    ensures run[i].monitor.Stopping? || run[i].shutdown
  {
    ExecutionInv(run, i);
    assert Next(run[i], run[i + 1]);
  }

  // ---- progress ---------------------------------------------------------------------------------

  /** A barrier that succeeds leaves the broker ready, by the current loop. */
  lemma BarrierReady(run: seq<State>, i: nat, l: int)
    requires Execution(run) && i < |run| - 1 && Barrier(run[i], run[i + 1], l, true)
    ensures run[i + 1].ready && l == run[i + 1].current && l in run[i + 1].passed
  {
    hide Execution;
    ExecutionInv(run, i);
    ExecutionInv(run, i + 1);
  }

  /** A broker without a loop can always become ready: leadership is won, then a barrier succeeds. */
  lemma CanServe(s: State) returns (t: State, u: State)
    requires Inv(s) && s.monitor.Selecting? && s.current == NONE
    ensures Acquire(s, t) && Barrier(t, u, |s.loops|, true) && !s.ready && !t.ready && u.ready
  {
    t := s.(current := |s.loops|, loops := s.loops + [Starting]);
    u := t.(loops := t.loops[|s.loops| := Waiting(true)], passed := t.passed + {|s.loops|}, ready := true);
  }

  ghost function StepsLeft(l: Loop): (n: nat) {
    match l
    case Starting => 4
    case Waiting(_) => 3
    case Leaving(established) => if established then 2 else 1
    case Done => 0
  }

  /** The next step of a loop that was told to stop. */
  lemma StopStep(s: State) returns (t: State)
    requires Inv(s) && s.monitor.Stopping? && !s.loops[s.current].Done?
    ensures Next(s, t) && t.monitor.Stopping? && t.current == s.current && |t.loops| == |s.loops|
    ensures StepsLeft(t.loops[t.current]) < StepsLeft(s.loops[s.current])
  {
    var l := s.current;
    match s.loops[l]
    case Starting =>
      t := s.(loops := s.loops[l := Waiting(false)]);
      assert Barrier(s, t, l, false);
    case Waiting(established) =>
      t := s.(loops := s.loops[l := Leaving(established)]);
      assert Leave(s, t, l);
    case Leaving(established) =>
      t := if established then s.(loops := s.loops[l := Leaving(false)], ready := false)
           else s.(loops := s.loops[l := Done]);
      assert Revoke(s, t, l);
  }

  /** A monitor that waits for its loop can always get through: the loop can end, whatever it was
      doing, and then the broker is not ready and leadership can be won again. */
  lemma {:induction false} CanStop(s: State) returns (path: seq<State>)
    requires Inv(s) && s.monitor.Stopping?
    ensures path != [] && path[0] == s && forall i :: 0 <= i < |path| - 1 ==> Next(path[i], path[i + 1])
    ensures var t := path[|path| - 1]; t.monitor.Selecting? && t.current == NONE && !t.ready
    decreases StepsLeft(s.loops[s.current])
  {
    hide Next, StepsLeft;
    if s.loops[s.current].Done? {
      var t := s.(monitor := Selecting, current := NONE);
      StoppedNext(s, t);
      path := [s, t];
    } else {
      var t := StopStep(s);
      NextInv(s, t);
      var rest := CanStop(t);
      path := [s] + rest;
    }
  }

  lemma StoppedNext(s: State, t: State)
    requires Inv(s) && s.monitor.Stopping? && s.loops[s.current].Done? && t == s.(monitor := Selecting, current := NONE)
    ensures Next(s, t) && !t.ready
  {
    assert Stopped(s, t);
  }
}
