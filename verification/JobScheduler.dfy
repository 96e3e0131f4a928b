/** `elm::sys::JobScheduler` as a system of threads that interleave at will.

    Thread 0 is the caller of `start()`, which launches the others and then works like them.  All
    threads execute `run()`; `stop()` may be called by anybody, at any moment, without the mutex.
    The n-th job that `next()` returns is the job number n.  The producer, the jobs and the
    harvesting belong to the client: here they take time, and may throw in the case of `harvest()`.
 */
module JobScheduler {
  import opened Common

  datatype Status = WAIT | RUN | STOP | EXN

  /** Where a thread is in `run()`. */
  datatype PC =
    | Idle                  // not started yet
    | Entry                 // about to lock the mutex
    | Test                  // has the mutex, about to test the state
    | Passed                // has found the state to be RUN
    | InNext                // in the call to next()
    | Got(job: nat)         // has a job, about to unlock
    | Ready(job: nat)       // without the mutex, about to run the job
    | Running(job: nat)     // in the call to run() of the job
    | Ran(job: nat)         // about to lock the mutex again
    | Back(job: nat)        // has the mutex, about to harvest
    | InHarvest(job: nat)   // in the call to harvest()
    | Leaving               // out of the loop, about to unlock
    | Done

  /** Where the caller is in `start()`. */
  datatype MainPC = Prepare | Launch(i: nat) | Working | Joining(i: nat) | Finished(threw: bool)

  datatype State = State(
    state: Status,
    mutex: Option<nat>,
    pcs: seq<PC>,
    main: MainPC,
    left: nat,                 // jobs the producer can still give
    given: nat,                // jobs it has given
    started: multiset<nat>,    // calls to run(), job by job
    ended: multiset<nat>,      // returns from run()
    harvested: multiset<nat>,  // calls to harvest()
    late: nat)                 // calls to next() made when the state was not RUN any more

  datatype Action =
    | SetRun | LaunchNext | StartWork | JoinNext | Return
    | Lock(t: nat) | TestState(t: nat) | CallNext(t: nat) | NextReturns(t: nat, some: bool)
    | Unlock(t: nat) | BeginJob(t: nat) | EndJob(t: nat) | CallHarvest(t: nat)
    | HarvestReturns(t: nat, throws: bool)
    | Stop

  function At(s: State, t: nat, pc: PC): State
    requires t < |s.pcs|
  {
    s.(pcs := s.pcs[t := pc])
  }

  /** One step of one thread, if it can be taken. */
  function Step(s: State, a: Action): Option<State> {
    match a
    // stop()
    case Stop => Some(s.(state := STOP))
    // start()
    case SetRun =>
      if s.main == Prepare then Some(s.(state := RUN, main := Launch(1))) else None
    case LaunchNext =>
      if s.main.Launch? && s.main.i < |s.pcs| then Some(At(s, s.main.i, Entry).(main := Launch(s.main.i + 1)))
      else None
    case StartWork =>
      if s.main.Launch? && s.main.i >= |s.pcs| && |s.pcs| > 0 then Some(At(s, 0, Entry).(main := Working)) else None
    case JoinNext =>
      if s.main == Working && |s.pcs| > 0 && s.pcs[0] == Done then Some(s.(main := Joining(1)))
      else if s.main.Joining? && s.main.i < |s.pcs| && s.pcs[s.main.i] == Done then
        Some(s.(main := Joining(s.main.i + 1)))
      else None
    case Return =>
      if s.main.Joining? && s.main.i >= |s.pcs| then Some(s.(main := Finished(s.state == EXN), state := WAIT))
      else None
    // run()
    case Lock(t) =>
      if t >= |s.pcs| || s.mutex != None then None
      else if s.pcs[t] == Entry then Some(At(s, t, Test).(mutex := Some(t)))
      else if s.pcs[t].Ran? then Some(At(s, t, Back(s.pcs[t].job)).(mutex := Some(t)))
      else None
    case TestState(t) =>
      if t < |s.pcs| && s.pcs[t] == Test then Some(At(s, t, if s.state == RUN then Passed else Leaving)) else None
    case CallNext(t) =>
      if t < |s.pcs| && s.pcs[t] == Passed
      then Some(At(s, t, InNext).(late := if s.state == RUN then s.late else s.late + 1))
      else None
    case NextReturns(t, some) =>
      if t >= |s.pcs| || s.pcs[t] != InNext then None
      else if !some then Some(At(s, t, Leaving))
      else if s.left == 0 then None
      else Some(At(s, t, Got(s.given)).(given := s.given + 1, left := s.left - 1))
    case Unlock(t) =>
      if t >= |s.pcs| then None
      else if s.pcs[t].Got? then Some(At(s, t, Ready(s.pcs[t].job)).(mutex := None))
      else if s.pcs[t] == Leaving then Some(At(s, t, Done).(mutex := None))
      else None
    case BeginJob(t) =>
      if t < |s.pcs| && s.pcs[t].Ready?
      then Some(At(s, t, Running(s.pcs[t].job)).(started := s.started + multiset{s.pcs[t].job}))
      else None
    case EndJob(t) =>
      if t < |s.pcs| && s.pcs[t].Running?
      then Some(At(s, t, Ran(s.pcs[t].job)).(ended := s.ended + multiset{s.pcs[t].job}))
      else None
    case CallHarvest(t) =>
      if t < |s.pcs| && s.pcs[t].Back?
      then Some(At(s, t, InHarvest(s.pcs[t].job)).(harvested := s.harvested + multiset{s.pcs[t].job}))
      else None
    case HarvestReturns(t, throws) =>
      if t >= |s.pcs| || !s.pcs[t].InHarvest? then None
      else if throws then Some(At(s, t, Leaving).(state := EXN))
      else Some(At(s, t, Test))
  }

  predicate Initial(s: State) {
    && |s.pcs| >= 1 && (forall t :: 0 <= t < |s.pcs| ==> s.pcs[t] == Idle)
    && s.mutex == None && s.main == Prepare && s.state == WAIT
    && s.given == 0 && s.late == 0
    && s.started == multiset{} && s.ended == multiset{} && s.harvested == multiset{}
  }

  /** Any number of threads may be started, with any number of jobs to do. */
  lemma {:induction false} AnyStart(n: nat, jobs: nat)
    requires n >= 1
    ensures exists s :: Initial(s) && |s.pcs| == n && s.left == jobs
  {
    var none := multiset{};
    var s := State(WAIT, None, seq(n, i => Idle), Prepare, jobs, 0, none, none, none, 0);
    assert Initial(s);
  }

  // -------------------------------------------------------------- invariant

  predicate HasMutex(pc: PC) {
    pc.Test? || pc.Passed? || pc.InNext? || pc.Got? || pc.Back? || pc.InHarvest? || pc.Leaving?
  }

  function JobOf(pc: PC): Option<nat> {
    match pc
    case Got(n) => Some(n)
    case Ready(n) => Some(n)
    case Running(n) => Some(n)
    case Ran(n) => Some(n)
    case Back(n) => Some(n)
    case InHarvest(n) => Some(n)
    case _ => None
  }

  /** The mutex belongs to the thread that believes to have it. */
  ghost predicate Exclusive(s: State) {
    && (s.mutex.Some? ==> s.mutex.value < |s.pcs|)
    && forall t :: 0 <= t < |s.pcs| ==> (HasMutex(s.pcs[t]) <==> s.mutex == Some(t))
  }

  ghost predicate Held(s: State, n: nat) {
    exists t :: 0 <= t < |s.pcs| && JobOf(s.pcs[t]) == Some(n)
  }

  /** A job in the hands of a thread is in the hands of no other. */
  ghost predicate Owned(s: State) {
    && (forall t :: 0 <= t < |s.pcs| && JobOf(s.pcs[t]).Some? ==> JobOf(s.pcs[t]).value < s.given)
    && (forall t, u :: 0 <= t < u < |s.pcs| && JobOf(s.pcs[t]).Some? ==> JobOf(s.pcs[t]) != JobOf(s.pcs[u]))
  }

  ghost predicate Counts(s: State, n: nat, a: nat, b: nat, c: nat) {
    s.started[n] == a && s.ended[n] == b && s.harvested[n] == c
  }

  /** What has been done of the job of a thread that is at `pc`. */
  ghost predicate AtStage(s: State, n: nat, pc: PC) {
    Counts(s, n,
           if pc.Got? || pc.Ready? then 0 else 1,
           if pc.Got? || pc.Ready? || pc.Running? then 0 else 1,
           if pc.InHarvest? then 1 else 0)
  }

  /** How far each job has gone: what its thread is doing, or the end when no thread has it. */
  ghost predicate Traced(s: State) {
    && (forall t :: 0 <= t < |s.pcs| && JobOf(s.pcs[t]).Some? ==> AtStage(s, JobOf(s.pcs[t]).value, s.pcs[t]))
    && (forall n: nat :: n < s.given && !Held(s, n) ==> Counts(s, n, 1, 1, 1))
    && (forall n: nat :: n >= s.given ==> Counts(s, n, 0, 0, 0))
  }

  /** `start()` and the threads agree. */
  ghost predicate Phased(s: State) {
    && |s.pcs| >= 1
    && match s.main
       case Prepare => forall t :: 0 <= t < |s.pcs| ==> s.pcs[t] == Idle
       case Launch(i) =>
         && 1 <= i <= |s.pcs| && s.pcs[0] == Idle && s.state != WAIT
         && (forall t :: 1 <= t < |s.pcs| ==> (s.pcs[t] == Idle <==> t >= i))
       case Working => s.state != WAIT && forall t :: 0 <= t < |s.pcs| ==> s.pcs[t] != Idle
       case Joining(i) =>
         && 1 <= i <= |s.pcs| && s.state != WAIT
         && (forall t :: 0 <= t < |s.pcs| ==> s.pcs[t] != Idle)
         && (forall t :: 0 <= t < i ==> s.pcs[t] == Done)
       case Finished(_) => forall t :: 0 <= t < |s.pcs| ==> s.pcs[t] == Done
  }

  /** At most one call to `next()` follows the end of the RUN state. */
  ghost predicate Prompt(s: State) {
    && s.late <= 1
    && (s.main == Prepare ==> s.late == 0)
    && (!s.main.Prepare? && !s.main.Finished? && s.state == RUN ==> s.late == 0)
    && (s.late == 1 ==> forall t :: 0 <= t < |s.pcs| ==> s.pcs[t] != Passed)
  }

  ghost predicate Inv(s: State) {
    Phased(s) && Exclusive(s) && Owned(s) && Traced(s) && Prompt(s)
  }

  lemma {:induction false} InitialInv(s: State)
    requires Initial(s)
    ensures Inv(s)
  {
  }

  // ------------------------------------------------ preservation, by action

  predicate ByMain(a: Action) {
    a.SetRun? || a.LaunchNext? || a.StartWork? || a.JoinNext? || a.Return? || a.Stop?
  }

  function Actor(a: Action): nat
    requires !ByMain(a)
  {
    match a
    case Lock(t) => t
    case TestState(t) => t
    case CallNext(t) => t
    case NextReturns(t, _) => t
    case Unlock(t) => t
    case BeginJob(t) => t
    case EndJob(t) => t
    case CallHarvest(t) => t
    case HarvestReturns(t, _) => t
  }

  /** A thread moves alone, inside `run()`. */
  lemma {:induction false} MovesAlone(s: State, a: Action, s': State)
    requires Step(s, a) == Some(s') && !ByMain(a)
    ensures var t := Actor(a);
      && t < |s.pcs| && s'.pcs == s.pcs[t := s'.pcs[t]] && s'.main == s.main
      && s.pcs[t] != Idle && s.pcs[t] != Done && s'.pcs[t] != Idle && (s'.state != s.state ==> s'.state == EXN)
  {
  }

  /** It keeps its job, but when it gets a new one or has harvested it. */
  lemma {:induction false} KeepsJob(s: State, a: Action, s': State)
    requires Step(s, a) == Some(s') && !ByMain(a)
    ensures var t := Actor(a);
      && t < |s.pcs| && t < |s'.pcs|
      && (a.NextReturns? && a.some ==> JobOf(s.pcs[t]) == None && s'.pcs[t] == Got(s.given) && s'.given == s.given + 1)
      && (a.HarvestReturns? ==> JobOf(s.pcs[t]).Some? && JobOf(s'.pcs[t]) == None && s'.given == s.given)
      && (!(a.NextReturns? && a.some) && !a.HarvestReturns? ==>
          JobOf(s'.pcs[t]) == JobOf(s.pcs[t]) && s'.given == s.given)
  {
  }

  /** It takes its own job one stage further, and no other. */
  ghost predicate Staged(s: State, a: Action, s': State, t: nat)
    requires t < |s.pcs| && t < |s'.pcs|
  {
    && (forall n: nat :: JobOf(s.pcs[t]) != Some(n) ==> Counts(s', n, s.started[n], s.ended[n], s.harvested[n]))
    && (JobOf(s.pcs[t]).Some? ==>
          var n := JobOf(s.pcs[t]).value;
          AtStage(s, n, s.pcs[t]) ==> if a.HarvestReturns? then Counts(s', n, 1, 1, 1) else AtStage(s', n, s'.pcs[t]))
  }

  lemma {:induction false} NextStage(s: State, a: Action, s': State)
    requires Step(s, a) == Some(s') && !ByMain(a) && Actor(a) < |s.pcs| && Actor(a) < |s'.pcs|
    ensures Staged(s, a, s', Actor(a))
  {
    hide Step, Staged;
    if a.BeginJob? || a.EndJob? || a.CallHarvest? || a.HarvestReturns? {
      WorkStage(s, a, s');
    } else {
      IdleStage(s, a, s');
    }
  }

  lemma {:induction false} WorkStage(s: State, a: Action, s': State)
    requires Step(s, a) == Some(s') && (a.BeginJob? || a.EndJob? || a.CallHarvest? || a.HarvestReturns?)
    requires Actor(a) < |s.pcs| && Actor(a) < |s'.pcs|
    ensures Staged(s, a, s', Actor(a))
  {
  }

  lemma {:induction false} IdleStage(s: State, a: Action, s': State)
    requires Step(s, a) == Some(s') && !ByMain(a) && Actor(a) < |s.pcs| && Actor(a) < |s'.pcs|
    requires !a.BeginJob? && !a.EndJob? && !a.CallHarvest? && !a.HarvestReturns?
    ensures Staged(s, a, s', Actor(a))
  {
  }

  /** The moves of `start()` and `stop()` do not concern any job. */
  lemma {:induction false} NoJob(s: State, a: Action, s': State)
    requires Step(s, a) == Some(s') && ByMain(a) && Phased(s)
    ensures s'.given == s.given && s'.started == s.started && s'.ended == s.ended && s'.harvested == s.harvested
    ensures |s'.pcs| == |s.pcs| && s'.mutex == s.mutex
    ensures forall t :: 0 <= t < |s.pcs| ==> s'.pcs[t] == s.pcs[t] || (s.pcs[t] == Idle && s'.pcs[t] == Entry)
  {
  }

  lemma {:induction false} PhasedByMain(s: State, a: Action, s': State)
    requires Step(s, a) == Some(s') && ByMain(a) && Phased(s)
    ensures Phased(s')
  {
  }

  lemma {:induction false} PhasedByThread(s: State, a: Action, s': State)
    requires Step(s, a) == Some(s') && !ByMain(a) && Phased(s)
    ensures Phased(s')
  {
    hide Step;
    MovesAlone(s, a, s');
  }

  lemma {:induction false} ExclusiveByMain(s: State, a: Action, s': State)
    requires Step(s, a) == Some(s') && ByMain(a) && Exclusive(s) && Phased(s)
    ensures Exclusive(s')
  {
    hide Step, Phased;
    NoJob(s, a, s');
  }

  /** It gets the mutex when it is free, and gives it back. */
  lemma {:induction false} MutexMove(s: State, a: Action, s': State)
    requires Step(s, a) == Some(s') && !ByMain(a)
    ensures var t := Actor(a);
      && t < |s.pcs| && t < |s'.pcs|
      && (a.Lock? ==> s.mutex == None && s'.mutex == Some(t) && HasMutex(s'.pcs[t]))
      && (a.Unlock? ==> HasMutex(s.pcs[t]) && s'.mutex == None && !HasMutex(s'.pcs[t]))
      && (!a.Lock? && !a.Unlock? ==> s'.mutex == s.mutex && (HasMutex(s'.pcs[t]) <==> HasMutex(s.pcs[t])))
  {
  }

  lemma {:induction false} ExclusiveByThread(s: State, a: Action, s': State)
    requires Step(s, a) == Some(s') && !ByMain(a) && Exclusive(s)
    ensures Exclusive(s')
  {
    hide Step, HasMutex;
    MovesAlone(s, a, s');
    MutexMove(s, a, s');
  }

  lemma {:induction false} OwnedByMain(s: State, a: Action, s': State)
    requires Step(s, a) == Some(s') && ByMain(a) && Owned(s) && Phased(s)
    ensures Owned(s')
  {
    hide Step, Phased;
    NoJob(s, a, s');
  }

  lemma {:induction false} OwnedByThread(s: State, a: Action, s': State)
    requires Step(s, a) == Some(s') && !ByMain(a) && Owned(s)
    ensures Owned(s')
  {
    hide Step;
    MovesAlone(s, a, s');
    KeepsJob(s, a, s');
  }

  lemma {:induction false} TracedByMain(s: State, a: Action, s': State)
    requires Step(s, a) == Some(s') && ByMain(a) && Traced(s) && Phased(s)
    ensures Traced(s')
  {
    hide Step, Phased;
    NoJob(s, a, s');
    forall n: nat | Held(s, n)
      ensures Held(s', n)
    {
      var t :| 0 <= t < |s.pcs| && JobOf(s.pcs[t]) == Some(n);
      assert JobOf(s'.pcs[t]) == Some(n);
    }
    forall n: nat | n < s'.given && !Held(s', n)
      ensures Counts(s', n, 1, 1, 1)
    {
      assert !Held(s, n) && Counts(s, n, 1, 1, 1);
    }
    forall n: nat | n >= s'.given
      ensures Counts(s', n, 0, 0, 0)
    {
      assert Counts(s, n, 0, 0, 0);
    }
  }

  lemma {:induction false} TracedByThread(s: State, a: Action, s': State)
    requires Step(s, a) == Some(s') && !ByMain(a) && Traced(s) && Owned(s)
    ensures Traced(s')
  {
    hide Step;
    MovesAlone(s, a, s');
    KeepsJob(s, a, s');
    NextStage(s, a, s');
    var t := Actor(a);
    forall u | 0 <= u < |s'.pcs| && JobOf(s'.pcs[u]).Some?
      ensures AtStage(s', JobOf(s'.pcs[u]).value, s'.pcs[u])
    {
      if u != t {
        assert JobOf(s.pcs[u]) != JobOf(s.pcs[t]);
        assert AtStage(s, JobOf(s.pcs[u]).value, s.pcs[u]);
      } else if JobOf(s.pcs[t]) == None {
        assert Counts(s, s.given, 0, 0, 0);
      }
    }
    forall n: nat | Held(s, n)
      ensures Held(s', n) || JobOf(s.pcs[t]) == Some(n)
    {
      var u :| 0 <= u < |s.pcs| && JobOf(s.pcs[u]) == Some(n);
      assert u != t ==> JobOf(s'.pcs[u]) == Some(n);
    }
    forall n: nat | n < s'.given && !Held(s', n)
      ensures Counts(s', n, 1, 1, 1)
    {
      assert JobOf(s'.pcs[t]) != Some(n);
      assert Held(s, n) || Counts(s, n, 1, 1, 1) || n == s.given;
    }
    forall n: nat | n >= s'.given
      ensures Counts(s', n, 0, 0, 0)
    {
      assert Counts(s, n, 0, 0, 0);
    }
  }

  lemma {:induction false} PromptByMain(s: State, a: Action, s': State)
    requires Step(s, a) == Some(s') && ByMain(a) && Prompt(s) && Phased(s)
    ensures Prompt(s')
  {
  }

  /** Only a test that finds RUN lets a thread pass, and only a thread that has passed calls `next()`. */
  lemma {:induction false} PassedMove(s: State, a: Action, s': State)
    requires Step(s, a) == Some(s') && !ByMain(a)
    ensures var t := Actor(a);
      && t < |s.pcs| && t < |s'.pcs|
      && (s'.pcs[t] == Passed ==> s.state == RUN && s'.late == s.late)
      && (s'.late != s.late ==> s.pcs[t] == Passed && s'.late == s.late + 1 && s.state != RUN)
      && (s'.state == s.state || s'.state == EXN)
  {
  }

  lemma {:induction false} PromptByThread(s: State, a: Action, s': State)
    requires Step(s, a) == Some(s') && !ByMain(a) && Prompt(s) && Phased(s) && Exclusive(s)
    ensures Prompt(s')
  {
    hide Step;
    var t := Actor(a);
    MovesAlone(s, a, s');
    PassedMove(s, a, s');
    forall u | 0 <= u < |s'.pcs| && s'.late == 1 ensures s'.pcs[u] != Passed {
      if s'.late != s.late && u != t {
        assert HasMutex(s.pcs[t]) && s.mutex == Some(t);
      }
    }
  }

  lemma {:induction false} InvKept(s: State, a: Action, s': State)
    requires Inv(s) && Step(s, a) == Some(s')
    ensures Inv(s') && |s'.pcs| == |s.pcs|
  {
    hide Step, Phased, Exclusive, Owned, Traced, Prompt;
    if ByMain(a) {
      PhasedByMain(s, a, s');
      ExclusiveByMain(s, a, s');
      OwnedByMain(s, a, s');
      TracedByMain(s, a, s');
      PromptByMain(s, a, s');
      NoJob(s, a, s');
    } else {
      PhasedByThread(s, a, s');
      ExclusiveByThread(s, a, s');
      OwnedByThread(s, a, s');
      TracedByThread(s, a, s');
      PromptByThread(s, a, s');
      MovesAlone(s, a, s');
    }
  }

  // --------------------------------------------------------------- all runs

  /** The states of a run: any interleaving of enabled steps from an initial state. */
  ghost predicate IsRun(ss: seq<State>, acts: seq<Action>) {
    && |ss| == |acts| + 1 && Initial(ss[0])
    && forall i :: 0 <= i < |acts| ==> Step(ss[i], acts[i]) == Some(ss[i + 1])
  }

  lemma {:induction false} RunInv(ss: seq<State>, acts: seq<Action>, i: nat)
    requires IsRun(ss, acts) && i < |ss|
    ensures Inv(ss[i]) && |ss[i].pcs| == |ss[0].pcs|
  {
    hide Step, Inv, Initial;
    if i == 0 {
      InitialInv(ss[0]);
    } else {
      RunInv(ss, acts, i - 1);
      assert Step(ss[i - 1], acts[i - 1]) == Some(ss[i]);
      InvKept(ss[i - 1], acts[i - 1], ss[i]);
    }
  }

  /** In every interleaving, at any time: the calls of the producer do not overlap; only the holder
      of the mutex unlocks it; no job is run or harvested twice, nor harvested before its run has
      ended; and at most one call to `next()` starts after the end of the RUN state. */
  lemma {:induction false} AlwaysSafe(ss: seq<State>, acts: seq<Action>, i: nat)
    requires IsRun(ss, acts) && i < |ss|
    ensures var s := ss[i];
      && (forall t, u :: 0 <= t < u < |s.pcs| ==>
            !((s.pcs[t].InNext? || s.pcs[t].InHarvest?) && (s.pcs[u].InNext? || s.pcs[u].InHarvest?)))
      && (forall t :: 0 <= t < |s.pcs| && (s.pcs[t].Got? || s.pcs[t].Leaving?) ==> s.mutex == Some(t))
      && (forall n: nat :: s.harvested[n] <= s.ended[n] <= s.started[n] <= (if n < s.given then 1 else 0))
      && s.late <= 1
  {
    RunInv(ss, acts, i);
    var s := ss[i];
    forall n: nat
      ensures s.harvested[n] <= s.ended[n] <= s.started[n] <= (if n < s.given then 1 else 0)
    {
      JobProgress(s, n);
    }
  }

  lemma {:induction false} JobProgress(s: State, n: nat)
    requires Traced(s)
    ensures s.harvested[n] <= s.ended[n] <= s.started[n] <= (if n < s.given then 1 else 0)
  {
    if n >= s.given {
      assert Counts(s, n, 0, 0, 0);
    } else if t :| 0 <= t < |s.pcs| && JobOf(s.pcs[t]) == Some(n) {
      assert AtStage(s, n, s.pcs[t]);
    } else {
      assert !Held(s, n) && Counts(s, n, 1, 1, 1);
    }
  }

  /** What the counters of a job count. */
  lemma {:induction false} CountersCount(s: State, a: Action, s': State, n: nat)
    requires Step(s, a) == Some(s')
    ensures s'.started[n] == s.started[n] + if a.BeginJob? && JobOf(s.pcs[a.t]) == Some(n) then 1 else 0
    ensures s'.ended[n] == s.ended[n] + if a.EndJob? && JobOf(s.pcs[a.t]) == Some(n) then 1 else 0
    ensures s'.harvested[n] == s.harvested[n] + if a.CallHarvest? && JobOf(s.pcs[a.t]) == Some(n) then 1 else 0
    ensures s'.late == s.late + if a.CallNext? && s.state != RUN then 1 else 0
  {
  }

  lemma {:induction false} CountersGrow(ss: seq<State>, acts: seq<Action>, i: nat, k: nat, n: nat)
    requires IsRun(ss, acts) && i <= k <= |acts|
    ensures ss[i].started[n] <= ss[k].started[n] && ss[i].ended[n] <= ss[k].ended[n]
    ensures ss[i].harvested[n] <= ss[k].harvested[n] && ss[i].late <= ss[k].late
  {
    hide Step, Initial;
    if i < k {
      CountersGrow(ss, acts, i, k - 1, n);
      assert Step(ss[k - 1], acts[k - 1]) == Some(ss[k]);
      CountersCount(ss[k - 1], acts[k - 1], ss[k], n);
    }
  }

  /** The same in terms of what happens: two calls to `run()` are for different jobs, and so are two
      calls to `harvest()`; of two calls to `next()`, one at least is made while the state is RUN. */
  lemma {:induction false} OnlyOnce(ss: seq<State>, acts: seq<Action>, i: nat, k: nat)
    requires IsRun(ss, acts) && i < k < |acts|
    ensures acts[i].BeginJob? && acts[k].BeginJob? ==>
      acts[i].t < |ss[i].pcs| && acts[k].t < |ss[k].pcs| && JobOf(ss[i].pcs[acts[i].t]) != JobOf(ss[k].pcs[acts[k].t])
    ensures acts[i].CallHarvest? && acts[k].CallHarvest? ==>
      acts[i].t < |ss[i].pcs| && acts[k].t < |ss[k].pcs| && JobOf(ss[i].pcs[acts[i].t]) != JobOf(ss[k].pcs[acts[k].t])
    ensures acts[i].CallNext? && acts[k].CallNext? ==> ss[i].state == RUN || ss[k].state == RUN
  {
    hide Step, Initial;
    assert Step(ss[i], acts[i]) == Some(ss[i + 1]) && Step(ss[k], acts[k]) == Some(ss[k + 1]);
    HasItsJob(ss[i], acts[i], ss[i + 1]);
    HasItsJob(ss[k], acts[k], ss[k + 1]);
    var n := if acts[k].BeginJob? || acts[k].CallHarvest? then JobOf(ss[k].pcs[acts[k].t]).value else 0;
    CountersCount(ss[i], acts[i], ss[i + 1], n);
    CountersCount(ss[k], acts[k], ss[k + 1], n);
    CountersGrow(ss, acts, i + 1, k, n);
    AlwaysSafe(ss, acts, k + 1);
  }

  lemma {:induction false} HasItsJob(s: State, a: Action, s': State)
    requires Step(s, a) == Some(s')
    ensures a.BeginJob? || a.CallHarvest? ==> a.t < |s.pcs| && JobOf(s.pcs[a.t]).Some?
  {
  }

  /** A job is done with, once; a job that was never given has never been seen. */
  ghost predicate Accounted(s: State, n: nat) {
    if n < s.given then Counts(s, n, 1, 1, 1) else Counts(s, n, 0, 0, 0)
  }

  /** When `start()` returns, whatever has stopped it, every job given has been run and harvested
      exactly once, the mutex is free and no thread is left. */
  lemma {:induction false} NothingInFlight(ss: seq<State>, acts: seq<Action>)
    requires IsRun(ss, acts) && ss[|acts|].main.Finished?
    ensures var s := ss[|acts|];
      && s.mutex == None && (forall t :: 0 <= t < |s.pcs| ==> s.pcs[t] == Done)
      && (forall n: nat :: Accounted(s, n))
  {
    RunInv(ss, acts, |acts|);
    var s := ss[|acts|];
    assert forall t :: 0 <= t < |s.pcs| ==> !HasMutex(s.pcs[t]);
    forall n: nat
      ensures Accounted(s, n)
    {
      assert !Held(s, n);
      assert n < s.given ==> Counts(s, n, 1, 1, 1);
      assert n >= s.given ==> Counts(s, n, 0, 0, 0);
    }
  }

  /** Why a thread may leave the loop at the action `j`: the producer has no job for it, or it finds that
      the state is not RUN, or its harvest throws. */
  ghost predicate Leaves(s: State, a: Action, t: nat) {
    a == NextReturns(t, false) || (a == TestState(t) && s.state != RUN) || a == HarvestReturns(t, true)
  }

  ghost predicate HasLeft(ss: seq<State>, acts: seq<Action>, i: nat, t: nat)
    requires i <= |acts| < |ss|
  {
    exists j :: 0 <= j < i && Leaves(ss[j], acts[j], t)
  }

  predicate Out(pc: PC) { pc == Leaving || pc == Done }

  /** A step takes the thread out of the loop exactly if it is one of these. */
  lemma {:induction false} LeavingMove(s: State, a: Action, s': State)
    requires Step(s, a) == Some(s') && !ByMain(a)
    ensures var t := Actor(a);
      t < |s.pcs| && t < |s'.pcs| && (Out(s'.pcs[t]) <==> Out(s.pcs[t]) || Leaves(s, a, t))
  {
    if a.Lock? || a.Unlock? || a.BeginJob? || a.EndJob? || a.CallHarvest? {
      JobMove(s, a, s');
    } else {
      LoopMove(s, a, s');
    }
  }

  lemma {:induction false} JobMove(s: State, a: Action, s': State)
    requires Step(s, a) == Some(s') && (a.Lock? || a.Unlock? || a.BeginJob? || a.EndJob? || a.CallHarvest?)
    ensures a.t < |s.pcs| && a.t < |s'.pcs| && (Out(s'.pcs[a.t]) <==> Out(s.pcs[a.t])) && !Leaves(s, a, a.t)
  {
  }

  lemma {:induction false} LoopMove(s: State, a: Action, s': State)
    requires Step(s, a) == Some(s') && (a.TestState? || a.CallNext? || a.NextReturns? || a.HarvestReturns?)
    ensures a.t < |s.pcs| && a.t < |s'.pcs| && (Out(s'.pcs[a.t]) <==> Out(s.pcs[a.t]) || Leaves(s, a, a.t))
  {
  }

  lemma {:induction false} LeavingStep(s: State, a: Action, s': State, t: nat)
    requires Step(s, a) == Some(s') && Phased(s) && t < |s.pcs| && t < |s'.pcs|
    ensures Out(s'.pcs[t]) <==> Out(s.pcs[t]) || Leaves(s, a, t)
  {
    hide Step, Phased;
    if ByMain(a) {
      NoJob(s, a, s');
    } else {
      MovesAlone(s, a, s');
      LeavingMove(s, a, s');
    }
  }

  /** In every interleaving, a thread is out of the loop exactly if one of these has happened to it: as
      long as none has, it goes on asking for jobs. */
  lemma {:induction false} LeavesForAReason(ss: seq<State>, acts: seq<Action>, i: nat, t: nat)
    requires IsRun(ss, acts) && i <= |acts| && t < |ss[0].pcs|
    ensures t < |ss[i].pcs|
    ensures Out(ss[i].pcs[t]) <==> HasLeft(ss, acts, i, t)
  {
    hide Step, Phased, Exclusive, Owned, Traced, Prompt, Leaves;
    RunInv(ss, acts, i);
    if i == 0 {
      assert Initial(ss[0]);
    } else {
      hide Initial;
      RunInv(ss, acts, i - 1);
      LeavesForAReason(ss, acts, i - 1, t);
      assert Step(ss[i - 1], acts[i - 1]) == Some(ss[i]);
      LeavingStep(ss[i - 1], acts[i - 1], ss[i], t);
      if HasLeft(ss, acts, i, t) && !HasLeft(ss, acts, i - 1, t) {
        var j :| 0 <= j < i && Leaves(ss[j], acts[j], t);
        assert j == i - 1;
      }
    }
  }

  /** Nothing ends the processing: `stop()` is not called, and no harvest throws. */
  ghost predicate Undisturbed(acts: seq<Action>) {
    forall j :: 0 <= j < |acts| ==> acts[j] != Stop && !(acts[j].HarvestReturns? && acts[j].throws)
  }

  lemma {:induction false} StaysRunning(ss: seq<State>, acts: seq<Action>, i: nat)
    requires IsRun(ss, acts) && i <= |acts| && Undisturbed(acts)
    ensures ss[i].main.Launch? || ss[i].main.Working? || ss[i].main.Joining? ==> ss[i].state == RUN
    ensures i < |acts| && acts[i].TestState? ==> ss[i].state == RUN
  {
    hide Exclusive, Owned, Traced, Prompt;
    RunInv(ss, acts, i);
    if i > 0 {
      StaysRunning(ss, acts, i - 1);
      RunInv(ss, acts, i - 1);
      assert Step(ss[i - 1], acts[i - 1]) == Some(ss[i]);
      RunningStep(ss[i - 1], acts[i - 1], ss[i]);
    }
    if i < |acts| && acts[i].TestState? {
      assert Step(ss[i], acts[i]) == Some(ss[i + 1]);
      TestsWhileRunning(ss[i], acts[i], ss[i + 1]);
    }
  }

  lemma {:induction false} RunningStep(s: State, a: Action, s': State)
    requires Phased(s) && Step(s, a) == Some(s') && a != Stop && !(a.HarvestReturns? && a.throws)
    requires s.main.Launch? || s.main.Working? || s.main.Joining? ==> s.state == RUN
    ensures s'.main.Launch? || s'.main.Working? || s'.main.Joining? ==> s'.state == RUN
  {
  }

  lemma {:induction false} TestsWhileRunning(s: State, a: Action, s': State)
    requires Phased(s) && Step(s, a) == Some(s') && a.TestState?
    ensures s.main.Launch? || s.main.Working? || s.main.Joining?
  {
  }

  /** When `start()` returns from a run that nothing has disturbed, the producer has had no job for each
      of the threads in turn. */
  lemma {:induction false} AllAreRefused(ss: seq<State>, acts: seq<Action>, t: nat)
    requires IsRun(ss, acts) && ss[|acts|].main.Finished? && Undisturbed(acts) && t < |ss[0].pcs|
    ensures exists j :: 0 <= j < |acts| && acts[j] == NextReturns(t, false)
  {
    hide Step, Initial, Exclusive, Owned, Traced, Prompt;
    RunInv(ss, acts, |acts|);
    LeavesForAReason(ss, acts, |acts|, t);
    assert ss[|acts|].pcs[t] == Done;
    var j :| 0 <= j < |acts| && Leaves(ss[j], acts[j], t);
    StaysRunning(ss, acts, j);
  }

  /** The jobs that the producer can still give, and those it has given. */
  lemma {:induction false} JobsAreCounted(ss: seq<State>, acts: seq<Action>, i: nat, k: nat)
    requires IsRun(ss, acts) && i <= k <= |acts|
    ensures ss[i].left + ss[i].given == ss[k].left + ss[k].given && ss[k].left <= ss[i].left
  {
    hide Step, Initial;
    if i < k {
      JobsAreCounted(ss, acts, i, k - 1);
      assert Step(ss[k - 1], acts[k - 1]) == Some(ss[k]);
      JobCounted(ss[k - 1], acts[k - 1], ss[k]);
    }
  }

  lemma {:induction false} JobCounted(s: State, a: Action, s': State)
    requires Step(s, a) == Some(s')
    ensures s'.left + s'.given == s.left + s.given && s'.left <= s.left
  {
  }

  /** The producer says that it has no job only when it has none. */
  ghost predicate Honest(ss: seq<State>, acts: seq<Action>)
    requires |acts| < |ss|
  {
    forall j :: 0 <= j < |acts| && acts[j].NextReturns? && !acts[j].some ==> ss[j].left == 0
  }

  /** When `start()` returns from a run that nothing has disturbed, all the jobs of the producer have been
      run and harvested, each one once. */
  lemma {:induction false} AllJobsAreDone(ss: seq<State>, acts: seq<Action>)
    requires IsRun(ss, acts) && ss[|acts|].main.Finished? && Undisturbed(acts) && Honest(ss, acts)
    ensures ss[|acts|].left == 0 && ss[|acts|].given == ss[0].left
    ensures forall n: nat :: n < ss[0].left ==> Counts(ss[|acts|], n, 1, 1, 1)
    ensures forall n: nat :: n >= ss[0].left ==> Counts(ss[|acts|], n, 0, 0, 0)
  {
    hide Step, Inv, Counts;
    assert |ss[0].pcs| >= 1 && ss[0].given == 0;
    AllAreRefused(ss, acts, 0);
    var j :| 0 <= j < |acts| && acts[j] == NextReturns(0, false);
    JobsAreCounted(ss, acts, j, |acts|);
    JobsAreCounted(ss, acts, 0, |acts|);
    NothingInFlight(ss, acts);
    forall n: nat ensures if n < ss[0].left then Counts(ss[|acts|], n, 1, 1, 1) else Counts(ss[|acts|], n, 0, 0, 0) {
      assert Accounted(ss[|acts|], n);
    }
  }

  /** The client decides: what `next()` and `harvest()` answer, and when `stop()` is called. */
  lemma {:induction false} ClientDecides(s: State, t: nat)
    requires t < |s.pcs|
    ensures Step(s, Stop).Some?
    ensures s.pcs[t] == InNext ==>
      Step(s, NextReturns(t, false)).Some? && (Step(s, NextReturns(t, true)).Some? <==> s.left > 0)
    ensures s.pcs[t].InHarvest? ==>
      Step(s, HarvestReturns(t, false)).Some? && Step(s, HarvestReturns(t, true)).Some?
  {
  }

  /** Among the first `i` actions a harvest throws, and no call to `stop()` follows it. */
  ghost predicate ThrewLast(acts: seq<Action>, i: nat)
    requires i <= |acts|
  {
    exists j :: 0 <= j < i && acts[j].HarvestReturns? && acts[j].throws && forall k :: j < k < i ==> acts[k] != Stop
  }

  lemma {:induction false} ThrewLastStep(acts: seq<Action>, i: nat)
    requires i < |acts|
    ensures ThrewLast(acts, i + 1) <==>
              (acts[i].HarvestReturns? && acts[i].throws) || (acts[i] != Stop && ThrewLast(acts, i))
  {
    if acts[i] != Stop && ThrewLast(acts, i) {
      var j :| 0 <= j < i && acts[j].HarvestReturns? && acts[j].throws && forall k :: j < k < i ==> acts[k] != Stop;
      assert forall k :: j < k < i + 1 ==> acts[k] != Stop;
    }
  }

  /** What one step does to the state that `start()` tests in the end. */
  lemma {:induction false} StateStep(s: State, a: Action, s': State)
    requires Phased(s) && Step(s, a) == Some(s')
    ensures s'.main == Prepare ==> s.main == Prepare && a == Stop
    ensures s'.main != Prepare && !s'.main.Finished? ==>
              && !s.main.Finished?
              && (s.main == Prepare ==> a == SetRun && s'.state != EXN)
              && (s.main != Prepare ==>
                    (s'.state == EXN <==> (a.HarvestReturns? && a.throws) || (a != Stop && s.state == EXN)))
  {
  }

  lemma {:induction false} StateTells(ss: seq<State>, acts: seq<Action>, i: nat)
    requires IsRun(ss, acts) && i <= |acts|
    ensures ss[i].main == Prepare ==> !ThrewLast(acts, i)
    ensures ss[i].main != Prepare && !ss[i].main.Finished? ==> (ss[i].state == EXN <==> ThrewLast(acts, i))
  {
    hide Step, Initial, ThrewLast, Exclusive, Owned, Traced, Prompt, Phased;
    if i == 0 {
      NothingYet(ss, acts);
    } else {
      StateTells(ss, acts, i - 1);
      RunInv(ss, acts, i - 1);
      assert Step(ss[i - 1], acts[i - 1]) == Some(ss[i]);
      StateStep(ss[i - 1], acts[i - 1], ss[i]);
      ThrewLastStep(acts, i - 1);
    }
  }

  lemma {:induction false} NothingYet(ss: seq<State>, acts: seq<Action>)
    requires IsRun(ss, acts)
    ensures ss[0].main == Prepare && !ThrewLast(acts, 0)
  {
  }

  /** `start()` throws exactly when some harvest has thrown and no `stop()` was called between that
      and the return. */
  lemma {:induction false} ThrowsIfNotStopped(ss: seq<State>, acts: seq<Action>, i: nat)
    requires IsRun(ss, acts) && i < |acts| && acts[i] == Return
    ensures ss[i + 1].main == Finished(ThrewLast(acts, i)) && ss[i + 1].state == WAIT
  {
    StateTells(ss, acts, i);
    assert Step(ss[i], acts[i]) == Some(ss[i + 1]);
  }

  /** The state after a sequence of steps. */
  function Exec(s: State, acts: seq<Action>): Option<State>
    decreases |acts|
  {
    if acts == [] then Some(s)
    else match Step(s, acts[0])
         case None => None
         case Some(s') => Exec(s', acts[1..])
  }

  lemma {:induction false} ExecConcat(s: State, a: seq<Action>, m: State, b: seq<Action>)
    requires Exec(s, a) == Some(m)
    ensures Exec(s, a + b) == Exec(m, b)
    decreases |a|
  {
    if a == [] {
      assert a + b == b;
    } else {
      assert (a + b)[1..] == a[1..] + b;
      ExecConcat(Step(s, a[0]).value, a[1..], m, b);
    }
  }

  /** The steps by which a lone thread gets a job, runs it, and harvests it in vain. */
  function FailingRun(): seq<Action> {
    [SetRun, StartWork, Lock(0), TestState(0), CallNext(0), NextReturns(0, true)]
    + [Unlock(0), BeginJob(0), EndJob(0), Lock(0), CallHarvest(0), HarvestReturns(0, true)]
  }

  /** Two steps of a run. */
  lemma {:induction false} TwoSteps(s: State, a: Action, m: State, b: Action, e: State)
    requires Step(s, a) == Some(m) && Step(m, b) == Some(e)
    ensures Exec(s, [a, b]) == Some(e)
  {
    hide Step;
    assert [a, b][1..] == [b] && [b][1..] == [];
    assert Exec(e, []) == Some(e);
    assert Exec(m, [b]) == Exec(e, [b][1..]);
  }

  lemma {:induction false} StartsAlone(s: State) returns (m: State)
    requires Initial(s) && |s.pcs| == 1 && s.left == 1
    ensures Exec(s, [SetRun, StartWork]) == Some(m)
    ensures m.pcs == [Entry] && m.main == Working && m.mutex == None && m.state == RUN && m.left == 1 && m.given == 0
  {
    hide Exec;
    var x := Step(s, SetRun).value;
    m := Step(x, StartWork).value;
    TwoSteps(s, SetRun, x, StartWork, m);
  }

  lemma {:induction false} GetsJob(s: State) returns (m: State)
    requires s.pcs == [Entry] && s.main == Working && s.mutex == None && s.state == RUN && s.left == 1 && s.given == 0
    ensures Exec(s, [Lock(0), TestState(0), CallNext(0), NextReturns(0, true)]) == Some(m)
    ensures m.pcs == [Got(0)] && m.main == Working && m.mutex == Some(0)
  {
    hide Exec;
    var x := Step(s, Lock(0)).value;
    var s2 := Step(x, TestState(0)).value;
    var y := Step(s2, CallNext(0)).value;
    m := Step(y, NextReturns(0, true)).value;
    TwoSteps(s, Lock(0), x, TestState(0), s2);
    TwoSteps(s2, CallNext(0), y, NextReturns(0, true), m);
    Joined(s, [Lock(0), TestState(0)], s2, [CallNext(0), NextReturns(0, true)]);
  }

  lemma {:induction false} Joined(s: State, a: seq<Action>, m: State, b: seq<Action>)
    requires Exec(s, a) == Some(m) && |a| == 2 && |b| == 2
    ensures Exec(s, [a[0], a[1], b[0], b[1]]) == Exec(m, b)
  {
    hide Exec;
    ExecConcat(s, a, m, b);
    assert a + b == [a[0], a[1], b[0], b[1]];
  }

  lemma {:induction false} HarvestFails(m: State) returns (e: State)
    requires m.pcs == [Got(0)] && m.main == Working && m.mutex == Some(0)
    ensures Exec(m, [Unlock(0), BeginJob(0), EndJob(0), Lock(0), CallHarvest(0), HarvestReturns(0, true)]) == Some(e)
    ensures e.pcs == [Leaving] && e.main == Working && e.mutex == Some(0) && e.state == EXN
  {
    hide Exec;
    var m4 := RunsJob(m);
    var x := Step(m4, CallHarvest(0)).value;
    e := Step(x, HarvestReturns(0, true)).value;
    TwoSteps(m4, CallHarvest(0), x, HarvestReturns(0, true), e);
    ExecConcat(m, [Unlock(0), BeginJob(0), EndJob(0), Lock(0)], m4, [CallHarvest(0), HarvestReturns(0, true)]);
    assert [Unlock(0), BeginJob(0), EndJob(0), Lock(0)] + [CallHarvest(0), HarvestReturns(0, true)]
        == [Unlock(0), BeginJob(0), EndJob(0), Lock(0), CallHarvest(0), HarvestReturns(0, true)];
  }

  lemma {:induction false} RunsJob(m: State) returns (m4: State)
    requires m.pcs == [Got(0)] && m.main == Working && m.mutex == Some(0)
    ensures Exec(m, [Unlock(0), BeginJob(0), EndJob(0), Lock(0)]) == Some(m4)
    ensures m4.pcs == [Back(0)] && m4.main == Working && m4.mutex == Some(0)
  {
    hide Exec;
    var x := Step(m, Unlock(0)).value;
    var m2 := Step(x, BeginJob(0)).value;
    var y := Step(m2, EndJob(0)).value;
    m4 := Step(y, Lock(0)).value;
    TwoSteps(m, Unlock(0), x, BeginJob(0), m2);
    TwoSteps(m2, EndJob(0), y, Lock(0), m4);
    Joined(m, [Unlock(0), BeginJob(0)], m2, [EndJob(0), Lock(0)]);
  }

  /** A failure of `harvest()` is lost when `stop()` is called after it: `start()` returns as if all
      had gone well. */
  lemma {:induction false} FailureCanBeLost(s: State) returns (e: State, f: State)
    requires Initial(s) && |s.pcs| == 1 && s.left == 1
    ensures Exec(s, FailingRun()) == Some(e) && e.state == EXN
    ensures Exec(s, FailingRun() + [Stop, Unlock(0), JoinNext, Return]) == Some(f) && f.main == Finished(false)
  {
    hide Step;
    var s2 := StartsAlone(s);
    var m := GetsJob(s2);
    e := HarvestFails(m);
    ExecConcat(s, [SetRun, StartWork], s2, [Lock(0), TestState(0), CallNext(0), NextReturns(0, true)]);
    ExecConcat(s, [SetRun, StartWork, Lock(0), TestState(0), CallNext(0), NextReturns(0, true)], m,
               [Unlock(0), BeginJob(0), EndJob(0), Lock(0), CallHarvest(0), HarvestReturns(0, true)]);
    f := StopHides(e);
    ExecConcat(s, FailingRun(), e, [Stop, Unlock(0), JoinNext, Return]);
  }

  lemma {:induction false} StopHides(e: State) returns (f: State)
    requires e.pcs == [Leaving] && e.main == Working && e.mutex == Some(0)
    ensures Exec(e, [Stop, Unlock(0), JoinNext, Return]) == Some(f) && f.main == Finished(false)
  {
    hide Exec;
    var x := Step(e, Stop).value;
    var e2 := Step(x, Unlock(0)).value;
    var y := Step(e2, JoinNext).value;
    f := Step(y, Return).value;
    TwoSteps(e, Stop, x, Unlock(0), e2);
    TwoSteps(e2, JoinNext, y, Return, f);
    Joined(e, [Stop, Unlock(0)], e2, [JoinNext, Return]);
  }

  // --------------------------------------------------------------- progress

  /** What a thread does next; it takes the mutex when it needs it. */
  function NextAction(pc: PC, t: nat): Action {
    match pc
    case Test => TestState(t)
    case Passed => CallNext(t)
    case InNext => NextReturns(t, false)
    case Got(_) => Unlock(t)
    case Ready(_) => BeginJob(t)
    case Running(_) => EndJob(t)
    case Back(_) => CallHarvest(t)
    case InHarvest(_) => HarvestReturns(t, false)
    case Leaving => Unlock(t)
    case _ => Lock(t)
  }

  /** Some step of `start()` or of a thread can be taken until `start()` returns: no deadlock. */
  lemma {:induction false} Progress(s: State) returns (a: Action)
    requires Inv(s) && !s.main.Finished?
    ensures a != Stop && Step(s, a).Some?
  {
    hide Owned, Traced, Prompt;
    if s.main.Prepare? {
      a := SetRun;
    } else if s.main.Launch? {
      a := if s.main.i < |s.pcs| then LaunchNext else StartWork;
    } else if s.mutex.Some? {
      a := NextAction(s.pcs[s.mutex.value], s.mutex.value);
      CanMove(s, s.mutex.value);
    } else if t: nat :| 0 <= t < |s.pcs| && s.pcs[t] != Done {
      a := NextAction(s.pcs[t], t);
      CanMove(s, t);
    } else {
      a := if s.main.Joining? && s.main.i >= |s.pcs| then Return else JoinNext;
    }
  }

  lemma {:induction false} CanMove(s: State, t: nat)
    requires t < |s.pcs| && s.pcs[t] != Idle && s.pcs[t] != Done
    requires s.mutex == None || HasMutex(s.pcs[t])
    ensures NextAction(s.pcs[t], t) != Stop && Step(s, NextAction(s.pcs[t], t)).Some?
  {
  }

  function Rank(pc: PC): nat {
    match pc
    case Idle => 6
    case Entry => 5
    case Test => 4
    case Passed => 3
    case InNext => 2
    case Got(_) => 10
    case Ready(_) => 9
    case Running(_) => 8
    case Ran(_) => 7
    case Back(_) => 6
    case InHarvest(_) => 5
    case Leaving => 1
    case Done => 0
  }

  function Ranks(pcs: seq<PC>): nat {
    if pcs == [] then 0 else Rank(pcs[0]) + Ranks(pcs[1..])
  }

  function MainRank(main: MainPC, cnt: nat): int {
    match main
    case Prepare => 2 * cnt + 2
    case Launch(i) => 2 * cnt + 2 - i
    case Working => cnt + 1
    case Joining(i) => cnt + 1 - i
    case Finished(_) => 0
  }

  /** What is left to do. */
  function Measure(s: State): int {
    9 * s.left + Ranks(s.pcs) + MainRank(s.main, |s.pcs|)
  }

  lemma {:induction false} RanksUpdate(pcs: seq<PC>, t: nat, pc: PC)
    requires t < |pcs|
    ensures Ranks(pcs[t := pc]) == Ranks(pcs) - Rank(pcs[t]) + Rank(pc)
  {
    if t == 0 {
      assert pcs[t := pc][1..] == pcs[1..];
    } else {
      assert pcs[t := pc][1..] == pcs[1..][t - 1 := pc];
      RanksUpdate(pcs[1..], t - 1, pc);
    }
  }

  lemma {:induction false} MeasureByMain(s: State, a: Action, s': State)
    requires Phased(s) && Step(s, a) == Some(s') && a != Stop && ByMain(a)
    ensures 0 <= Measure(s') < Measure(s)
  {
    hide Ranks;
    if s'.pcs != s.pcs {
      RanksUpdate(s.pcs, if a.LaunchNext? then s.main.i else 0, Entry);
    }
  }

  lemma {:induction false} RankDrops(s: State, a: Action, s': State)
    requires Step(s, a) == Some(s') && !ByMain(a) && Actor(a) < |s.pcs| && Actor(a) < |s'.pcs|
    ensures 9 * s'.left + Rank(s'.pcs[Actor(a)]) < 9 * s.left + Rank(s.pcs[Actor(a)])
  {
    if a.NextReturns? {
      NextRanks(s, a, s');
    } else {
      OtherRanks(s, a, s');
    }
  }

  lemma {:induction false} NextRanks(s: State, a: Action, s': State)
    requires Step(s, a) == Some(s') && a.NextReturns? && a.t < |s.pcs| && a.t < |s'.pcs|
    ensures s.pcs[a.t] == InNext
    ensures if a.some then s'.left == s.left - 1 && s'.pcs[a.t].Got? else s'.left == s.left && s'.pcs[a.t] == Leaving
  {
  }

  lemma {:induction false} OtherRanks(s: State, a: Action, s': State)
    requires Step(s, a) == Some(s') && !ByMain(a) && !a.NextReturns? && Actor(a) < |s.pcs| && Actor(a) < |s'.pcs|
    ensures s'.left == s.left && Rank(s'.pcs[Actor(a)]) < Rank(s.pcs[Actor(a)])
  {
    if a.Lock? || a.Unlock? {
      LockRanks(s, a, s');
    } else {
      WorkRanks(s, a, s');
    }
  }

  lemma {:induction false} LockRanks(s: State, a: Action, s': State)
    requires Step(s, a) == Some(s') && (a.Lock? || a.Unlock?) && a.t < |s.pcs| && a.t < |s'.pcs|
    ensures s'.left == s.left && Rank(s'.pcs[a.t]) < Rank(s.pcs[a.t])
  {
  }

  lemma {:induction false} WorkRanks(s: State, a: Action, s': State)
    requires Step(s, a) == Some(s') && !ByMain(a) && !a.NextReturns? && !a.Lock? && !a.Unlock?
    requires Actor(a) < |s.pcs| && Actor(a) < |s'.pcs|
    ensures s'.left == s.left && Rank(s'.pcs[Actor(a)]) < Rank(s.pcs[Actor(a)])
  {
  }

  lemma {:induction false} MeasureDecreases(s: State, a: Action, s': State)
    requires Phased(s) && Step(s, a) == Some(s') && a != Stop
    ensures 0 <= Measure(s') < Measure(s)
  {
    hide Step, Ranks;
    if ByMain(a) {
      MeasureByMain(s, a, s');
    } else {
      MovesAlone(s, a, s');
      RankDrops(s, a, s');
      RanksUpdate(s.pcs, Actor(a), s'.pcs[Actor(a)]);
    }
  }

  /** Steps of a run other than calls to `stop()`. */
  ghost function Moves(acts: seq<Action>): nat {
    if acts == [] then 0 else Moves(acts[..|acts| - 1]) + if acts[|acts| - 1] == Stop then 0 else 1
  }

  /** No run is longer than the jobs and the threads allow: `start()` returns in the end. */
  lemma {:induction false} RunsAreBounded(ss: seq<State>, acts: seq<Action>, i: nat)
    requires IsRun(ss, acts) && i <= |acts|
    ensures Moves(acts[..i]) + Measure(ss[i]) <= Measure(ss[0]) && Measure(ss[i]) >= 0
  {
    hide Step, Phased, Exclusive, Owned, Traced, Prompt, Initial, Measure;
    RunInv(ss, acts, i);
    if i == 0 {
      MeasureNonNegative(ss[0]);
    } else {
      RunsAreBounded(ss, acts, i - 1);
      RunInv(ss, acts, i - 1);
      assert Step(ss[i - 1], acts[i - 1]) == Some(ss[i]);
      assert acts[..i][..i - 1] == acts[..i - 1];
      if acts[i - 1] == Stop {
        StopIsFree(ss[i - 1], ss[i]);
      } else {
        MeasureDecreases(ss[i - 1], acts[i - 1], ss[i]);
      }
    }
  }

  lemma {:induction false} MeasureNonNegative(s: State)
    requires Inv(s)
    ensures Measure(s) >= 0
  {
  }

  lemma {:induction false} StopIsFree(s: State, s': State)
    requires Step(s, Stop) == Some(s')
    ensures Measure(s') == Measure(s)
  {
  }
}
