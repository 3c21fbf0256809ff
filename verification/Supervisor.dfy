/** The process supervisor as a state machine: the main goroutine, the signal goroutine
    and one goroutine per command, sharing a WaitGroup counter and a cancellable context.
    Every step below is one access to that shared state or to a child process, and the
    goroutines' steps may interleave in any order. */
module Supervisor {

  datatype Phase =
    | NotStarted   // runCommand not called yet
    | Added        // wg.Add done, goroutine not launched
    | Launched     // goroutine running, cmd.Run not called yet
    | Cleared      // cmd.Run has seen the context alive, the child does not exist yet
    | Running      // child alive
    | Interrupted  // context cancelled, child sent an interrupt
    | Killed       // WaitDelay over, child sent a kill
    | Returned     // cmd.Run has returned
    | Counted      // wg.Done done
    | Finished     // doneCb done

  datatype MainPc =
    | Starting(k: nat)               // about to call runCommand for command k, or Wait after the last
    | Launching(k: nat)              // in runCommand, wg.Add done
    | Polling(k: nat, left: nat)     // in waitForFile, at most `left` polls to go
    | Sleeping(k: nat)
    | Waiting
    | Past                           // Wait has returned, main is about to return
    | Exited                         // main has returned, which ends the process and all goroutines

  datatype SignalPc = Listening | Received | Stopped | Cancelling

  datatype State = State(main: MainPc, signal: SignalPc, phases: seq<Phase>, counter: int, cancelled: bool)

  /** `polls[k]` bounds the polls of the waitForFile call behind command k; 0 if there is none. */
  datatype Config = Config(polls: seq<nat>)
  {
    function N(): nat { |polls| }
  }

  ghost predicate Init(c: Config, s: State) {
    s == State(Starting(0), Listening, seq(c.N(), _ => NotStarted), 0, false)
  }

  // ----- steps -----

  ghost predicate MainStep(c: Config, s: State, t: State) {
    match s.main
    case Starting(k) =>
      if k < c.N() then
        k < |s.phases| && t == s.(main := Launching(k), phases := s.phases[k := Added], counter := s.counter + 1)
      else t == s.(main := Waiting)
    case Launching(k) =>
      && k < |s.phases| && k < c.N()
      && t == s.(main := if c.polls[k] > 0 then Polling(k, c.polls[k]) else Starting(k + 1),
                 phases := s.phases[k := Launched])
    case Polling(k, left) =>
      || t == s.(main := Sleeping(k))  // file found, timeout, or context cancelled
      || (!s.cancelled && left > 0 && t == s.(main := Polling(k, left - 1)))
    case Sleeping(k) => t == s.(main := Starting(k + 1))
    case Waiting => s.counter == 0 && t == s.(main := Past)
    case Past => t == s.(main := Exited)
    case Exited => false
  }

  /** The signal arrives from outside; stopping the notifications and cancelling follow. */
  ghost predicate SignalStep(s: State, t: State) {
    match s.signal
    case Listening => t == s.(signal := Received)
    case Received => t == s.(signal := Stopped)
    case Stopped => t == s.(signal := Cancelling, cancelled := true)
    case Cancelling => false
  }

  /** The phase changes that do not wait for the child to exit of its own accord. */
  predicate Driven(p: Phase, q: Phase, cancelled: bool) {
    match p
    case Launched => if cancelled then q.Returned? else q.Cleared?
    case Cleared => q.Running? || q.Returned?  // the child may fail to start
    case Running => q.Interrupted? && cancelled
    case Interrupted => q.Killed?
    case Killed => q.Returned?
    case Returned => q.Counted?
    case Counted => q.Finished?
    case _ => false
  }

  /** The child exits, interrupted or not. */
  predicate Exits(p: Phase, q: Phase) {
    (p.Running? || p.Interrupted?) && q.Returned?
  }

  /** Command `i` enters phase `q`: Done takes one off the counter, the callback cancels. */
  function Moved(s: State, i: nat, q: Phase): State
    requires i < |s.phases|
  {
    s.(phases := s.phases[i := q],
       counter := if q.Counted? then s.counter - 1 else s.counter,
       cancelled := s.cancelled || q.Finished?)
  }

  ghost predicate DrivenStep(s: State, t: State, i: nat) {
    && i < |s.phases| == |t.phases|
    && Driven(s.phases[i], t.phases[i], s.cancelled) && t == Moved(s, i, t.phases[i])
  }

  ghost predicate ExitStep(s: State, t: State, i: nat) {
    && i < |s.phases| == |t.phases|
    && Exits(s.phases[i], t.phases[i]) && t == Moved(s, i, t.phases[i])
  }

  ghost predicate CommandStep(s: State, t: State) {
    exists i: nat :: DrivenStep(s, t, i) || ExitStep(s, t, i)
  }

  ghost predicate Step(c: Config, s: State, t: State) {
    s.main != Exited && (MainStep(c, s, t) || SignalStep(s, t) || CommandStep(s, t))
  }

  ghost predicate StepAt(c: Config, run: seq<State>, j: nat)
    requires j + 1 < |run|
  {
    Step(c, run[j], run[j + 1])
  }

  ghost predicate IsRun(c: Config, run: seq<State>) {
    run != [] && forall j: nat :: j + 1 < |run| ==> StepAt(c, run, j)
  }

  // ----- the steps by what they lead to -----

  /** Which phase a command can enter, from which phases, and with what effect. */
  lemma {:induction false} CommandMoves(c: Config, s: State, i: nat, q: Phase)
    requires s.main != Exited && i < |s.phases| && s.phases[i] != q
    ensures var p := s.phases[i];
      (exists t :: Step(c, s, t) && t.main == s.main && i < |t.phases| && t.phases[i] == q) <==>
      match q
      case Cleared => p == Launched && !s.cancelled
      case Running => p == Cleared
      case Interrupted => p == Running && s.cancelled
      case Killed => p == Interrupted
      case Returned => (p == Launched && s.cancelled) || p == Cleared || p == Running || p == Interrupted || p == Killed
      case Counted => p == Returned
      case Finished => p == Counted
      case _ => false
    ensures forall t :: Step(c, s, t) && t.main == s.main && i < |t.phases| && t.phases[i] == q ==>
      t == State(s.main, s.signal, s.phases[i := q], if q == Counted then s.counter - 1 else s.counter,
                 s.cancelled || q == Finished)
  {
    if Driven(s.phases[i], q, s.cancelled) {
      assert DrivenStep(s, Moved(s, i, q), i);
    }
    if Exits(s.phases[i], q) {
      assert ExitStep(s, Moved(s, i, q), i);
    }
    forall t | Step(c, s, t) && t.main == s.main && i < |t.phases| && t.phases[i] == q
      ensures t == Moved(s, i, q) && (Driven(s.phases[i], q, s.cancelled) || Exits(s.phases[i], q))
    {
      assert !MainStep(c, s, t);
      var j: nat :| DrivenStep(s, t, j) || ExitStep(s, t, j);
    }
  }

  /** What main does to the rest when it gets to `m`. */
  function MainEffect(s: State, m: MainPc): State {
    s.(main := m,
       phases := if m.Launching? && m.k < |s.phases| then s.phases[m.k := Added]
                 else if s.main.Launching? && s.main.k < |s.phases| then s.phases[s.main.k := Launched]
                 else s.phases,
       counter := if m.Launching? then s.counter + 1 else s.counter)
  }

  lemma {:induction false} MainStepEffect(c: Config, s: State, t: State)
    requires MainStep(c, s, t)
    ensures t == MainEffect(s, t.main)
  {
  }

  /** Where main can get, and from where; only its own steps move it. */
  lemma {:induction false} MainMoves(c: Config, s: State, m: MainPc)
    requires Inv(c, s) && s.main != Exited && s.main != m
    ensures (exists t :: Step(c, s, t) && t.main == m) <==>
      match m
      case Starting(k) =>
        0 < k <= c.N() && (s.main == Sleeping(k - 1) || (s.main == Launching(k - 1) && c.polls[k - 1] == 0))
      case Launching(k) => k < c.N() && s.main == Starting(k)
      case Polling(k, left) =>
        || (k < c.N() && s.main == Launching(k) && left == c.polls[k] > 0)
        || (s.main == Polling(k, left + 1) && !s.cancelled)
      case Sleeping(k) => s.main.Polling? && s.main.k == k
      case Waiting => s.main == Starting(c.N())
      case Past => s.main == Waiting && s.counter == 0
      case Exited => s.main == Past
    ensures forall t :: Step(c, s, t) && t.main == m ==> MainStep(c, s, t) && t == MainEffect(s, m)
  {
    forall t | Step(c, s, t) && t.main == m ensures MainStep(c, s, t) && t == MainEffect(s, m) {
      assert MainStep(c, s, t);
      MainStepEffect(c, s, t);
    }
    var t := MainEffect(s, m);
    assert MainStep(c, s, t) ==> Step(c, s, t);
    assert (exists u :: Step(c, s, u) && u.main == m) <==> MainStep(c, s, t);
  }

  /** The signal goroutine goes through its positions in order, and cancels at the end. */
  lemma {:induction false} SignalMoves(c: Config, s: State, p: SignalPc)
    requires s.main != Exited && s.signal != p
    ensures (exists t :: Step(c, s, t) && t.signal == p) <==>
      match p
      case Listening => false
      case Received => s.signal == Listening
      case Stopped => s.signal == Received
      case Cancelling => s.signal == Stopped
    ensures forall t :: Step(c, s, t) && t.signal == p ==>
      t == s.(signal := p, cancelled := s.cancelled || p == Cancelling)
  {
    var t := s.(signal := p, cancelled := s.cancelled || p == Cancelling);
    assert SignalStep(s, t) ==> Step(c, s, t);
    assert SignalStep(s, t) <==> match p
      case Listening => false
      case Received => s.signal == Listening
      case Stopped => s.signal == Received
      case Cancelling => s.signal == Stopped;
  }

  // ----- invariant -----

  /** The WaitGroup still counts the command. */
  predicate IsHeld(p: Phase) {
    p.Added? || p.Launched? || p.Cleared? || p.Running? || p.Interrupted? || p.Killed? || p.Returned?
  }

  predicate IsAlive(p: Phase) {
    p.Running? || p.Interrupted? || p.Killed?
  }

  predicate IsLaunched(p: Phase) {
    !p.NotStarted? && !p.Added?
  }

  ghost function Held(phases: seq<Phase>, n: nat): nat
    requires n <= |phases|
  {
    if n == 0 then 0 else Held(phases, n - 1) + if IsHeld(phases[n - 1]) then 1 else 0
  }

  /** Which commands main has brought how far. */
  ghost predicate MainAgrees(c: Config, s: State) {
    match s.main
    case Starting(k) => k <= c.N() && Frontier(s.phases, k, k)
    case Launching(k) => k < c.N() && k < |s.phases| && s.phases[k] == Added && Frontier(s.phases, k, k + 1)
    case Polling(k, left) => k < c.N() && left <= c.polls[k] && Frontier(s.phases, k + 1, k + 1)
    case Sleeping(k) => k < c.N() && Frontier(s.phases, k + 1, k + 1)
    case Waiting => Frontier(s.phases, c.N(), c.N())
    case Past | Exited => AllDone(s.phases)
  }

  ghost predicate AllDone(phases: seq<Phase>) {
    forall i :: 0 <= i < |phases| ==> phases[i] == Counted || phases[i] == Finished
  }

  /** Commands below `a` are launched, those from `b` on are not started. */
  ghost predicate Frontier(phases: seq<Phase>, a: nat, b: nat) {
    && (forall i :: 0 <= i < a && i < |phases| ==> IsLaunched(phases[i]))
    && (forall i :: b <= i < |phases| ==> phases[i] == NotStarted)
  }

  ghost predicate SomeFinished(phases: seq<Phase>) {
    exists i :: 0 <= i < |phases| && phases[i] == Finished
  }

  ghost predicate Inv(c: Config, s: State) {
    && |s.phases| == c.N()
    && s.counter == Held(s.phases, |s.phases|)
    && MainAgrees(c, s)
    && (s.cancelled <==> s.signal == Cancelling || SomeFinished(s.phases))
    && (forall i :: 0 <= i < |s.phases| && (s.phases[i] == Interrupted || s.phases[i] == Killed) ==> s.cancelled)
  }

  lemma {:induction false} HeldUpdate(phases: seq<Phase>, i: nat, p: Phase, n: nat)
    requires i < |phases| && n <= |phases|
    ensures Held(phases[i := p], n) ==
      Held(phases, n) + (if i < n then (if IsHeld(p) then 1 else 0) - (if IsHeld(phases[i]) then 1 else 0) else 0)
  {
    if n > 0 {
      HeldUpdate(phases, i, p, n - 1);
    }
  }

  lemma {:induction false} HeldZero(phases: seq<Phase>, n: nat)
    requires n <= |phases|
    ensures Held(phases, n) == 0 <==> forall i :: 0 <= i < n ==> !IsHeld(phases[i])
  {
    if n > 0 {
      HeldZero(phases, n - 1);
    }
  }

  lemma {:induction false} InitInv(c: Config, s: State)
    requires Init(c, s)
    ensures Inv(c, s)
  {
    HeldZero(s.phases, |s.phases|);
  }

  lemma {:induction false} MainStepAgrees(c: Config, s: State, t: State)
    requires Inv(c, s) && MainStep(c, s, t)
    ensures MainAgrees(c, t)
  {
    if s.main == Waiting {
      HeldZero(s.phases, c.N());
    }
  }

  lemma {:induction false} MainStepInv(c: Config, s: State, t: State)
    requires Inv(c, s) && MainStep(c, s, t)
    ensures Inv(c, t)
  {
    MainStepAgrees(c, s, t);
    if s.main.Starting? && s.main.k < c.N() {
      LaunchInv(c, s, t, s.main.k, Added);
    } else if s.main.Launching? {
      LaunchInv(c, s, t, s.main.k, Launched);
    } else {
      SamePhasesInv(c, s, t);
    }
  }

  lemma {:induction false} SamePhasesInv(c: Config, s: State, t: State)
    requires Inv(c, s) && t == s.(main := t.main) && MainAgrees(c, t)
    ensures Inv(c, t)
  {
  }

  /** Main brings command `k` into phase `p` and goes on. */
  lemma {:induction false} LaunchInv(c: Config, s: State, t: State, k: nat, p: Phase)
    requires Inv(c, s) && k < c.N() && (p.Added? || p.Launched?)
    requires s.phases[k] == (if p.Added? then NotStarted else Added)
    requires t == s.(main := t.main, phases := s.phases[k := p], counter := s.counter + if p.Added? then 1 else 0)
    requires MainAgrees(c, t)
    ensures Inv(c, t)
  {
    HeldUpdate(s.phases, k, p, c.N());
    SameFinished(s.phases, k, p);
  }

  lemma {:induction false} SameFinished(phases: seq<Phase>, i: nat, p: Phase)
    requires i < |phases| && phases[i] != Finished
    ensures SomeFinished(phases[i := p]) <==> SomeFinished(phases) || p == Finished
  {
    var q := phases[i := p];
    if SomeFinished(phases) {
      var j :| 0 <= j < |phases| && phases[j] == Finished;
      assert q[j] == Finished;
    }
    if p == Finished {
      assert q[i] == Finished;
    }
  }

  lemma {:induction false} MovedInv(c: Config, s: State, i: nat, q: Phase)
    requires Inv(c, s) && i < c.N()
    requires Driven(s.phases[i], q, s.cancelled) || Exits(s.phases[i], q)
    ensures Inv(c, Moved(s, i, q))
  {
    HeldUpdate(s.phases, i, q, c.N());
    SameFinished(s.phases, i, q);
    var t := Moved(s, i, q);
    assert IsLaunched(s.phases[i]) && IsLaunched(q);
    assert MainAgrees(c, t);
  }

  lemma {:induction false} StepInv(c: Config, s: State, t: State)
    requires Inv(c, s) && Step(c, s, t)
    ensures Inv(c, t)
  {
    if MainStep(c, s, t) {
      MainStepInv(c, s, t);
    } else if CommandStep(s, t) {
      var i: nat :| DrivenStep(s, t, i) || ExitStep(s, t, i);
      MovedInv(c, s, i, t.phases[i]);
    }
  }

  lemma {:induction false} RunInv(c: Config, run: seq<State>, j: nat)
    requires IsRun(c, run) && Init(c, run[0]) && j < |run|
    ensures Inv(c, run[j])
  {
    if j == 0 {
      InitInv(c, run[0]);
    } else {
      RunInv(c, run, j - 1);
      assert StepAt(c, run, j - 1);
      StepInv(c, run[j - 1], run[j]);
    }
  }

  // ----- safety over all runs -----

  /** In every state of every interleaving: the counter is the number of commands added
      and not yet done, Wait returns only when every command is done and no child is
      alive, and the context is cancelled exactly when the signal goroutine or some
      command's callback has cancelled it. */
  lemma {:induction false} Safety(c: Config, run: seq<State>, j: nat)
    requires IsRun(c, run) && Init(c, run[0]) && j < |run|
    ensures var s := run[j];
      && |s.phases| == c.N()
      && s.counter == Held(s.phases, |s.phases|) >= 0
      && (s.main == Past || s.main == Exited ==>
            s.counter == 0 && forall i :: 0 <= i < c.N() ==> s.phases[i] == Counted || s.phases[i] == Finished)
      && (s.main == Past || s.main == Exited ==> forall i :: 0 <= i < c.N() ==> !IsAlive(s.phases[i]))
      && (s.cancelled <==> s.signal == Cancelling || SomeFinished(s.phases))
  {
    RunInv(c, run, j);
    HeldZero(run[j].phases, c.N());
  }

  /** A cancelled context stays cancelled, and a command past its callback stays there. */
  lemma {:induction false} CancelledForGood(c: Config, run: seq<State>, j: nat, k: nat)
    requires IsRun(c, run) && j <= k < |run|
    ensures run[j].cancelled ==> run[k].cancelled
    decreases k
  {
    if j < k {
      CancelledForGood(c, run, j, k - 1);
      assert StepAt(c, run, k - 1);
    }
  }

  /** A command past its callback implies a context cancelled now and ever after. */
  lemma {:induction false} CallbackCancels(c: Config, run: seq<State>, j: nat, k: nat, i: nat)
    requires IsRun(c, run) && Init(c, run[0]) && j <= k < |run|
    requires i < |run[j].phases| && run[j].phases[i] == Finished
    ensures run[k].cancelled
  {
    RunInv(c, run, j);
    assert SomeFinished(run[j].phases);
    CancelledForGood(c, run, j, k);
  }

  // ----- runs of every configuration -----

  /** `n` commands, the first `k` of them in phase `p` and the others in `q`. */
  ghost function Split(n: nat, k: nat, p: Phase, q: Phase): seq<Phase> {
    seq(n, i => if i < k then p else q)
  }

  ghost predicate Reaches(c: Config, run: seq<State>, s: State) {
    IsRun(c, run) && Init(c, run[0]) && run[|run| - 1] == s
  }

  lemma {:induction false} Extend(c: Config, run: seq<State>, t: State)
    requires IsRun(c, run) && Step(c, run[|run| - 1], t)
    ensures IsRun(c, run + [t])
  {
    var longer := run + [t];
    forall j: nat | j + 1 < |longer| ensures StepAt(c, longer, j) {
      assert j + 1 < |run| ==> StepAt(c, run, j);
    }
  }

  lemma {:induction false} ReachesNext(c: Config, run: seq<State>, s: State, t: State)
    requires Reaches(c, run, s) && Step(c, s, t)
    ensures Reaches(c, run + [t], t)
  {
    Extend(c, run, t);
  }

  lemma {:induction false} ReachesMoved(c: Config, run: seq<State>, s: State, i: nat, q: Phase)
    requires Reaches(c, run, s) && s.main != Exited && i < |s.phases| && Driven(s.phases[i], q, s.cancelled)
    ensures Reaches(c, run + [Moved(s, i, q)], Moved(s, i, q))
  {
    assert DrivenStep(s, Moved(s, i, q), i);
    ReachesNext(c, run, s, Moved(s, i, q));
  }

  /** Main may launch the first `k` commands before any goroutine moves. */
  lemma {:induction false} LaunchRun(c: Config, k: nat) returns (run: seq<State>)
    requires k <= c.N()
    ensures Reaches(c, run, State(Starting(k), Listening, Split(c.N(), k, Launched, NotStarted), k, false))
  {
    if k == 0 {
      run := [State(Starting(0), Listening, Split(c.N(), 0, Launched, NotStarted), 0, false)];
    } else {
      run := LaunchRun(c, k - 1);
      var s := run[|run| - 1];
      var s1 := s.(main := Launching(k - 1), phases := s.phases[k - 1 := Added], counter := k);
      ReachesNext(c, run, s, s1);
      var after := Split(c.N(), k, Launched, NotStarted);
      assert s1.phases[k - 1 := Launched] == after;
      var n := c.polls[k - 1];
      var s2 := s1.(main := if n > 0 then Polling(k - 1, n) else Starting(k), phases := after);
      ReachesNext(c, run + [s1], s1, s2);
      run := run + [s1] + [s2];
      if n > 0 {
        ReachesNext(c, run, s2, s2.(main := Sleeping(k - 1)));
        ReachesNext(c, run + [s2.(main := Sleeping(k - 1))], s2.(main := Sleeping(k - 1)), s2.(main := Starting(k)));
        run := run + [s2.(main := Sleeping(k - 1))] + [s2.(main := Starting(k))];
      }
    }
  }

  /** Then, with main in Wait, the first `k` of them may come and go. */
  lemma {:induction false} CountRun(c: Config, k: nat) returns (run: seq<State>)
    requires k <= c.N()
    ensures Reaches(c, run, State(Waiting, Listening, Split(c.N(), k, Counted, Launched), c.N() - k, false))
  {
    if k == 0 {
      run := LaunchRun(c, c.N());
      var s := run[|run| - 1];
      assert s.phases == Split(c.N(), 0, Counted, Launched);
      ReachesNext(c, run, s, s.(main := Waiting));
      run := run + [s.(main := Waiting)];
    } else {
      run := CountRun(c, k - 1);
      var s := run[|run| - 1];
      var s1 := Moved(s, k - 1, Cleared);
      var s2 := Moved(s1, k - 1, Returned);
      var s3 := Moved(s2, k - 1, Counted);
      ReachesMoved(c, run, s, k - 1, Cleared);
      ReachesMoved(c, run + [s1], s1, k - 1, Returned);
      ReachesMoved(c, run + [s1] + [s2], s2, k - 1, Counted);
      assert s3.phases == Split(c.N(), k, Counted, Launched);
      run := run + [s1] + [s2] + [s3];
    }
  }

  /** Whatever is launched, Wait may return, and the process end, with the context never
      cancelled: Done comes before the callback, and main does not wait for the latter. */
  lemma {:induction false} WaitBeforeCancel(c: Config) returns (run: seq<State>)
    ensures |run| > 1 && IsRun(c, run) && Init(c, run[0])
    ensures run[|run| - 2].main == Past && run[|run| - 1].main == Exited
    ensures !run[|run| - 2].cancelled && !run[|run| - 1].cancelled
  {
    run := CountRun(c, c.N());
    var s := run[|run| - 1];
    ReachesNext(c, run, s, s.(main := Past));
    ReachesNext(c, run + [s.(main := Past)], s.(main := Past), s.(main := Exited));
    run := run + [s.(main := Past)] + [s.(main := Exited)];
  }

  /** A child may exit at any time, interrupted or not. */
  lemma {:induction false} ChildMayExit(c: Config, run: seq<State>, s: State, i: nat)
    requires Reaches(c, run, s) && s.main != Exited && i < |s.phases|
    requires s.phases[i] == Running || s.phases[i] == Interrupted
    ensures Reaches(c, run + [s.(phases := s.phases[i := Returned])], s.(phases := s.phases[i := Returned]))
  {
    var t := Moved(s, i, Returned);
    assert ExitStep(s, t, i);
    ReachesNext(c, run, s, t);
  }

  /** One command ending by itself, whatever it returns, shuts the others down: without any
      signal its callback cancels the context, and another child is interrupted. */
  lemma {:induction false} OneEndsAll(c: Config, run: seq<State>, s: State, i: nat, j: nat)
      returns (more: seq<State>, t: State)
    requires Reaches(c, run, s) && s.main != Exited && !s.cancelled
    requires i < |s.phases| && s.phases[i] == Running
    requires j < |s.phases| && j != i && s.phases[j] == Running
    ensures Reaches(c, run + more, t)
    ensures |t.phases| == |s.phases| && t.phases[i] == Finished && t.phases[j] == Interrupted
    ensures t.cancelled && t.signal == s.signal && t.main == s.main
  {
    var alone, u := EndsAndCancels(c, run, s, i);
    t := Moved(u, j, Interrupted);
    ReachesMoved(c, run + alone, u, j, Interrupted);
    more := alone + [t];
    assert run + alone + [t] == run + more;
  }

  lemma {:induction false} EndsAndCancels(c: Config, run: seq<State>, s: State, i: nat)
      returns (more: seq<State>, t: State)
    requires Reaches(c, run, s) && s.main != Exited && i < |s.phases| && s.phases[i] == Running
    ensures Reaches(c, run + more, t)
    ensures t == State(s.main, s.signal, s.phases[i := Finished], s.counter - 1, true)
  {
    var s1 := Moved(s, i, Returned);
    var s2 := Moved(s1, i, Counted);
    t := Moved(s2, i, Finished);
    ChildMayExit(c, run, s, i);
    ReachesMoved(c, run + [s1], s1, i, Counted);
    ReachesMoved(c, run + [s1] + [s2], s2, i, Finished);
    more := [s1, s2, t];
    assert run + [s1] + [s2] + [t] == run + more;
  }

  /** A signal may arrive at any time, and then the context may be cancelled at once,
      whatever the commands do. */
  lemma {:induction false} SignalCancels(c: Config, run: seq<State>, s: State) returns (more: seq<State>)
    requires Reaches(c, run, s) && s.main != Exited && s.signal == Listening
    ensures Reaches(c, run + more, s.(signal := Cancelling, cancelled := true))
  {
    var s1, s2, s3 := s.(signal := Received), s.(signal := Stopped), s.(signal := Cancelling, cancelled := true);
    ReachesNext(c, run, s, s1);
    ReachesNext(c, run + [s1], s1, s2);
    ReachesNext(c, run + [s1] + [s2], s2, s3);
    more := [s1, s2, s3];
    assert run + [s1] + [s2] + [s3] == run + more;
  }

  // ----- what it means to be alive -----

  /** Command `i` has been in phase `p` by state `j` of the run. */
  ghost predicate HasBeen(run: seq<State>, j: nat, i: nat, p: Phase) {
    exists k: nat :: k <= j && k < |run| && i < |run[k].phases| && run[k].phases[i] == p
  }

  lemma {:induction false} HasBeenNext(run: seq<State>, j: nat, i: nat, p: Phase)
    requires j + 1 < |run| && i < |run[j + 1].phases|
    ensures HasBeen(run, j + 1, i, p) <==> HasBeen(run, j, i, p) || run[j + 1].phases[i] == p
  {
    if HasBeen(run, j + 1, i, p) {
      var k: nat :| k <= j + 1 && k < |run| && i < |run[k].phases| && run[k].phases[i] == p;
    }
  }

  /** The step that changes a command's phase, if there is one. */
  lemma {:induction false} PhaseStep(c: Config, s: State, t: State, i: nat)
    requires Inv(c, s) && Step(c, s, t) && i < c.N()
    ensures |t.phases| == c.N()
    ensures var p, q := s.phases[i], t.phases[i];
      p == q || Driven(p, q, s.cancelled) || Exits(p, q)
      || (p == NotStarted && q == Added) || (p == Added && q == Launched)
  {
    if MainStep(c, s, t) {
    } else if CommandStep(s, t) {
      var j: nat :| DrivenStep(s, t, j) || ExitStep(s, t, j);
    }
  }

  /** A child is alive when it has been started and its cmd.Run has not returned. */
  lemma {:induction false} AliveMeans(c: Config, run: seq<State>, j: nat, i: nat)
    requires IsRun(c, run) && Init(c, run[0]) && j < |run| && i < c.N()
    ensures |run[j].phases| == c.N()
    ensures IsAlive(run[j].phases[i]) <==> HasBeen(run, j, i, Running) && !HasBeen(run, j, i, Returned)
    ensures HasBeen(run, j, i, Returned) <==> IsOver(run[j].phases[i])
  {
    RunInv(c, run, j);
    if j == 0 {
      assert run[0].phases[i] == NotStarted;
    } else {
      RunInv(c, run, j - 1);
      AliveMeans(c, run, j - 1, i);
      assert StepAt(c, run, j - 1);
      PhaseStep(c, run[j - 1], run[j], i);
      HasBeenNext(run, j - 1, i, Running);
      HasBeenNext(run, j - 1, i, Returned);
    }
  }

  predicate IsOver(p: Phase) {
    p.Returned? || p.Counted? || p.Finished?
  }

  // ----- shutdown -----

  ghost predicate MayBeAlive(p: Phase) {
    p.Cleared? || IsAlive(p)
  }

  lemma {:induction false} StepStartsNoChild(c: Config, s: State, t: State, i: nat)
    requires Inv(c, s) && Step(c, s, t) && s.cancelled && i < c.N()
    ensures |t.phases| == c.N() && (MayBeAlive(t.phases[i]) ==> MayBeAlive(s.phases[i]))
  {
    if MainStep(c, s, t) {
    } else if CommandStep(s, t) {
      var j: nat :| DrivenStep(s, t, j) || ExitStep(s, t, j);
    }
  }

  /** Once the context is cancelled, a child can be alive only if it was alive, or had
      passed the context check, at that moment. */
  lemma {:induction false} NoNewChild(c: Config, run: seq<State>, j: nat, k: nat, i: nat)
    requires IsRun(c, run) && Init(c, run[0]) && j <= k < |run| && run[j].cancelled
    requires i < c.N()
    ensures |run[j].phases| == |run[k].phases| == c.N()
    ensures MayBeAlive(run[k].phases[i]) ==> MayBeAlive(run[j].phases[i])
    decreases k
  {
    if j == k {
      RunInv(c, run, j);
    } else {
      NoNewChild(c, run, j, k - 1, i);
      CancelledForGood(c, run, j, k - 1);
      RunInv(c, run, k - 1);
      assert StepAt(c, run, k - 1);
      StepStartsNoChild(c, run[k - 1], run[k], i);
    }
  }

  ghost predicate AliveAtEnd(run: seq<State>, i: nat) {
    run != [] && i < |run[|run| - 1].phases| && IsAlive(run[|run| - 1].phases[i])
  }

  /** In a cancelled state without child `i`, the child can still be started, by some
      continuation of the run, exactly when its command had passed the context check. */
  lemma {:induction false} NewChildOnlyIfCleared(c: Config, run: seq<State>, i: nat)
    requires IsRun(c, run) && Init(c, run[0]) && i < c.N()
    requires run[|run| - 1].cancelled && !AliveAtEnd(run, i)
    ensures |run[|run| - 1].phases| == c.N()
    ensures (exists more :: IsRun(c, run + more) && AliveAtEnd(run + more, i)) <==> run[|run| - 1].phases[i] == Cleared
  {
    var s := run[|run| - 1];
    RunInv(c, run, |run| - 1);
    if more :| IsRun(c, run + more) && AliveAtEnd(run + more, i) {
      NoNewChild(c, run + more, |run| - 1, |run + more| - 1, i);
    }
    if s.phases[i] == Cleared {
      ReachesMoved(c, run, s, i, Running);
      assert AliveAtEnd(run + [Moved(s, i, Running)], i);
    }
  }

  /** This does occur, to any command of any configuration: cancellation may fall between
      the check and the start. */
  lemma {:induction false} LateStart(c: Config, i: nat) returns (run: seq<State>, j: nat)
    requires i < c.N()
    ensures IsRun(c, run) && Init(c, run[0]) && j < |run| && run[j].cancelled
    ensures |run[j].phases| == |run[|run| - 1].phases| == c.N()
    ensures run[j].phases[i] == Cleared && run[|run| - 1].phases[i] == Running
  {
    run := LaunchRun(c, c.N());
    var s := run[|run| - 1];
    var s1 := Moved(s, i, Cleared);
    var s2 := s1.(signal := Received);
    var s3 := s1.(signal := Stopped);
    var s4 := s1.(signal := Cancelling, cancelled := true);
    ReachesMoved(c, run, s, i, Cleared);
    ReachesNext(c, run + [s1], s1, s2);
    ReachesNext(c, run + [s1] + [s2], s2, s3);
    ReachesNext(c, run + [s1] + [s2] + [s3], s3, s4);
    run := run + [s1] + [s2] + [s3] + [s4];
    j := |run| - 1;
    ReachesMoved(c, run, s4, i, Running);
    run := run + [Moved(s4, i, Running)];
  }

  function Rank(p: Phase): nat {
    match p
    case NotStarted => 9
    case Added => 8
    case Launched => 7
    case Cleared => 6
    case Running => 5
    case Interrupted => 4
    case Killed => 3
    case Returned => 2
    case Counted => 1
    case Finished => 0
  }

  ghost function Ranks(phases: seq<Phase>, n: nat): nat
    requires n <= |phases|
  {
    if n == 0 then 0 else Ranks(phases, n - 1) + Rank(phases[n - 1])
  }

  /** What main has left to do for commands `k` and later, at most. */
  ghost function Ahead(c: Config, k: nat): nat
    decreases c.N() - k
  {
    if k >= c.N() then 3 else 4 + c.polls[k] + Ahead(c, k + 1)
  }

  ghost function MainRank(c: Config, m: MainPc): nat {
    match m
    case Starting(k) => Ahead(c, k)
    case Launching(k) => if k < c.N() then 3 + c.polls[k] + Ahead(c, k + 1) else 0
    case Polling(k, left) => 2 + left + Ahead(c, k + 1)
    case Sleeping(k) => 1 + Ahead(c, k + 1)
    case Waiting => 2
    case Past => 1
    case Exited => 0
  }

  ghost function SignalRank(p: SignalPc): nat {
    match p
    case Listening => 3
    case Received => 2
    case Stopped => 1
    case Cancelling => 0
  }

  ghost function Measure(c: Config, s: State): nat {
    MainRank(c, s.main) + SignalRank(s.signal) + Ranks(s.phases, |s.phases|)
  }

  lemma {:induction false} RanksUpdate(phases: seq<Phase>, i: nat, p: Phase, n: nat)
    requires i < |phases| && n <= |phases|
    ensures Ranks(phases[i := p], n) == Ranks(phases, n) + (if i < n then Rank(p) - Rank(phases[i]) else 0)
  {
    if n > 0 {
      RanksUpdate(phases, i, p, n - 1);
    }
  }

  lemma {:induction false} LaunchDescends(c: Config, s: State, t: State, k: nat, p: Phase)
    requires k < |s.phases| && t.phases == s.phases[k := p] && t.signal == s.signal
    requires Rank(p) < Rank(s.phases[k]) && MainRank(c, t.main) <= MainRank(c, s.main)
    ensures Measure(c, t) < Measure(c, s)
  {
    RanksUpdate(s.phases, k, p, |s.phases|);
  }

  lemma {:induction false} MainStepDescends(c: Config, s: State, t: State)
    requires Inv(c, s) && MainStep(c, s, t)
    ensures Measure(c, t) < Measure(c, s)
  {
    if s.main.Starting? && s.main.k < c.N() {
      LaunchDescends(c, s, t, s.main.k, Added);
    } else if s.main.Launching? {
      LaunchDescends(c, s, t, s.main.k, Launched);
    }
  }

  lemma {:induction false} MovedDescends(c: Config, s: State, i: nat, q: Phase)
    requires Inv(c, s) && i < c.N()
    requires Driven(s.phases[i], q, s.cancelled) || Exits(s.phases[i], q)
    ensures Measure(c, Moved(s, i, q)) < Measure(c, s)
  {
    RanksUpdate(s.phases, i, q, c.N());
  }

  /** Every step of every goroutine brings the end nearer. */
  lemma {:induction false} StepDescends(c: Config, s: State, t: State)
    requires Inv(c, s) && Step(c, s, t)
    ensures Measure(c, t) < Measure(c, s)
  {
    if MainStep(c, s, t) {
      MainStepDescends(c, s, t);
    } else if CommandStep(s, t) {
      var i: nat :| DrivenStep(s, t, i) || ExitStep(s, t, i);
      MovedDescends(c, s, i, t.phases[i]);
    }
  }

  /** So no run is longer than its first state's measure. */
  lemma {:induction false} RunsEnd(c: Config, run: seq<State>, j: nat)
    requires IsRun(c, run) && Init(c, run[0]) && j < |run|
    ensures Measure(c, run[j]) + j <= Measure(c, run[0])
  {
    if j > 0 {
      RunsEnd(c, run, j - 1);
      RunInv(c, run, j - 1);
      assert StepAt(c, run, j - 1);
      StepDescends(c, run[j - 1], run[j]);
    }
  }

  /** Main or some command goes on without waiting for a child to exit by itself. */
  ghost predicate DueStep(c: Config, s: State, t: State) {
    s.main != Exited && (MainStep(c, s, t) || exists i: nat :: DrivenStep(s, t, i))
  }

  /** After cancellation the supervisor never depends on a child's good will: until the
      process ends, main or some command has a step to take. */
  lemma {:induction false} ShutdownProgresses(c: Config, s: State) returns (t: State)
    requires Inv(c, s) && s.cancelled && s.main != Exited
    ensures DueStep(c, s, t)
    ensures Step(c, s, t) && t.signal == s.signal && |t.phases| == |s.phases|
    ensures forall i :: 0 <= i < |s.phases| && (s.phases[i] == Running || s.phases[i] == Interrupted) ==>
      t.phases[i] != Returned
  {
    if i: nat :| i < c.N() && IsHeld(s.phases[i]) && IsLaunched(s.phases[i]) {
      var q := match s.phases[i]
        case Launched => Returned
        case Cleared => Running
        case Running => Interrupted
        case Interrupted => Killed
        case Killed => Returned
        case _ => Counted;
      t := Moved(s, i, q);
      assert DrivenStep(s, t, i);
    } else {
      match s.main {
        case Starting(k) =>
          t := if k < c.N() then s.(main := Launching(k), phases := s.phases[k := Added], counter := s.counter + 1)
               else s.(main := Waiting);
        case Launching(k) =>
          t := s.(main := if c.polls[k] > 0 then Polling(k, c.polls[k]) else Starting(k + 1),
                  phases := s.phases[k := Launched]);
        case Polling(k, _) => t := s.(main := Sleeping(k));
        case Sleeping(k) => t := s.(main := Starting(k + 1));
        case Waiting =>
          HeldZero(s.phases, c.N());
          t := s.(main := Past);
        case Past => t := s.(main := Exited);
      }
    }
  }

  /** So a cancelled run comes to rest, with no such step left, exactly when main has
      returned; then Wait has let every command go and no child is left behind. */
  lemma {:induction false} QuietMeansShutDown(c: Config, run: seq<State>, s: State)
    requires IsRun(c, run) && Init(c, run[0]) && s == run[|run| - 1] && s.cancelled
    ensures |s.phases| == c.N()
    ensures (forall t :: !DueStep(c, s, t)) <==> s.main == Exited
    ensures s.main == Exited ==>
      forall i :: 0 <= i < c.N() ==> (s.phases[i] == Counted || s.phases[i] == Finished) && !IsAlive(s.phases[i])
  {
    RunInv(c, run, |run| - 1);
    if s.main != Exited {
      var t := ShutdownProgresses(c, s);
    }
  }
}
