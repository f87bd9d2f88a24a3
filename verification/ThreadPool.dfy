/** The thread pool of src/std_thread_pool.cpp as interleaved steps of its workers and of the
    threads that add work, up to the shutdown. Between two steps of a thread any other may run;
    the mutex is part of the state. */
module ThreadPool {
  import opened Options

  type Job = nat
  type Thread = nat

  /** Where a thread is. Names that end in Locked are positions inside the critical section. */
  datatype Pc =
    | Entering           // worker_thread: before the first lock()
    | LoopLocked         // at the loop's test, then dequeue()
    | SignalLocked       // a job was taken and more are left: before signal()
    | ReleaseLocked      // before unlock() and the job's function
    | InJob(job: Job)
    | Relocking          // before the lock() after the job
    | TestLocked         // at return jobs.size() > 0
    | WaitLocked         // before wait()
    | Waiting            // inside wait(), without the mutex
    | Woken              // inside wait(), to get the mutex back
    | Idle               // an adding thread outside add_work
    | PushLocked         // before push_back
    | NotifyLocked       // before signal()
    | LeaveLocked        // before unlock()

  predicate Holding(pc: Pc) {
    pc in {LoopLocked, SignalLocked, ReleaseLocked, TestLocked, WaitLocked, PushLocked, NotifyLocked, LeaveLocked}
  }

  predicate IsWorker(pc: Pc) {
    !(pc in {Idle, PushLocked, NotifyLocked, LeaveLocked})
  }

  /** taken is the job that a worker in its critical section has removed from the list. */
  datatype State = State(jobs: seq<Job>, mutex: Option<Thread>, pcs: map<Thread, Pc>, taken: map<Thread, Job>, added: seq<Job>, started: seq<Job>)

  ghost predicate Init(s: State) {
    && s.jobs == [] && s.mutex == None && s.added == [] && s.started == [] && s.taken == map[]
    && forall t :: t in s.pcs ==> s.pcs[t] == Entering || s.pcs[t] == Idle
  }

  // ----- steps -----

  function Move(s: State, t: Thread, pc: Pc): State {
    s.(pcs := s.pcs[t := pc])
  }

  /** lock() returns. */
  ghost predicate Lock(s: State, s': State, t: Thread) {
    && t in s.pcs && s.mutex == None
    && match s.pcs[t]
       case Entering => s' == Move(s, t, LoopLocked).(mutex := Some(t))
       case Relocking => s' == Move(s, t, TestLocked).(mutex := Some(t))
       case Woken => s' == Move(s, t, LoopLocked).(mutex := Some(t))
       case Idle => s' == Move(s, t, PushLocked).(mutex := Some(t))
       case _ => false
  }

  /** dequeue() up to the signal: takes the first job, if there is one. */
  ghost predicate Dequeue(s: State, s': State, t: Thread) {
    && t in s.pcs && s.pcs[t] == LoopLocked
    && if |s.jobs| > 0
       then s' == Move(s, t, if |s.jobs| > 1 then SignalLocked else ReleaseLocked).(jobs := s.jobs[1..], taken := s.taken[t := s.jobs[0]])
       else s' == Move(s, t, WaitLocked)
  }

  /** signal() wakes at least one waiting thread, if there is one. */
  ghost predicate Signal(s: State, s': State, t: Thread, woken: set<Thread>) {
    && t in s.pcs && (s.pcs[t] == SignalLocked || s.pcs[t] == NotifyLocked)
    && (forall w :: w in woken ==> w in s.pcs && s.pcs[w] == Waiting)
    && (woken == {} ==> forall w :: w in s.pcs ==> s.pcs[w] != Waiting)
    && s' == s.(pcs := map w | w in s.pcs ::
         if w in woken then Woken
         else if w == t then (if s.pcs[t] == SignalLocked then ReleaseLocked else LeaveLocked)
         else s.pcs[w])
  }

  /** unlock(), and the job's function starts. */
  ghost predicate Start(s: State, s': State, t: Thread) {
    && t in s.pcs && s.pcs[t] == ReleaseLocked && t in s.taken
    && s' == Move(s, t, InJob(s.taken[t])).(mutex := None, taken := s.taken - {t}, started := s.started + [s.taken[t]])
  }

  ghost predicate Finish(s: State, s': State, t: Thread) {
    t in s.pcs && s.pcs[t].InJob? && s' == Move(s, t, Relocking)
  }

  /** After the job: around the loop again, or to wait(). */
  ghost predicate Test(s: State, s': State, t: Thread) {
    t in s.pcs && s.pcs[t] == TestLocked && s' == Move(s, t, if |s.jobs| > 0 then LoopLocked else WaitLocked)
  }

  /** wait() gives up the mutex and begins to wait in one step. */
  ghost predicate Wait(s: State, s': State, t: Thread) {
    t in s.pcs && s.pcs[t] == WaitLocked && s' == Move(s, t, Waiting).(mutex := None)
  }

  ghost predicate SpuriousWakeup(s: State, s': State, t: Thread) {
    t in s.pcs && s.pcs[t] == Waiting && s' == Move(s, t, Woken)
  }

  /** push_back, or the exception that it throws. */
  ghost predicate Push(s: State, s': State, t: Thread, job: Job) {
    && t in s.pcs && s.pcs[t] == PushLocked
    && (s' == Move(s, t, NotifyLocked).(jobs := s.jobs + [job], added := s.added + [job]) || s' == Move(s, t, LeaveLocked))
  }

  ghost predicate Unlock(s: State, s': State, t: Thread) {
    t in s.pcs && s.pcs[t] == LeaveLocked && s' == Move(s, t, Idle).(mutex := None)
  }

  /** The steps of the workers themselves. */
  ghost predicate Work(s: State, s': State, t: Thread) {
    || (t in s.pcs && IsWorker(s.pcs[t]) && Lock(s, s', t))
    || Dequeue(s, s', t)
    || (t in s.pcs && s.pcs[t] == SignalLocked && exists woken :: Signal(s, s', t, woken))
    || Start(s, s', t) || Finish(s, s', t) || Test(s, s', t) || Wait(s, s', t)
  }

  ghost predicate Add(s: State, s': State, t: Thread) {
    || (t in s.pcs && s.pcs[t] == Idle && Lock(s, s', t))
    || (exists job :: Push(s, s', t, job))
    || (t in s.pcs && s.pcs[t] == NotifyLocked && exists woken :: Signal(s, s', t, woken))
    || Unlock(s, s', t)
  }

  ghost predicate Next(s: State, s': State) {
    exists t :: Work(s, s', t) || Add(s, s', t) || SpuriousWakeup(s, s', t)
  }

  ghost predicate Run(r: seq<State>) {
    r != [] && Init(r[0]) && forall i {:trigger r[i]} :: 0 < i < |r| ==> Next(r[i - 1], r[i])
  }

  // ----- the invariant -----

  /** This thread will look at the list, or signal, before it waits or runs a job. */
  predicate Alert(pc: Pc) {
    pc in {Entering, LoopLocked, SignalLocked, Relocking, TestLocked, Woken, NotifyLocked}
  }

  ghost predicate SomeoneAlert(s: State) {
    exists t :: t in s.pcs && Alert(s.pcs[t])
  }

  ghost predicate SomeoneWaits(s: State) {
    exists t :: t in s.pcs && s.pcs[t] == Waiting
  }

  /** The thread that holds the mutex is the one inside the critical section. */
  ghost predicate MutexOk(s: State) {
    && (s.mutex.Some? ==> s.mutex.value in s.pcs && Holding(s.pcs[s.mutex.value]))
    && forall t :: t in s.pcs && Holding(s.pcs[t]) ==> s.mutex == Some(t)
  }

  predicate HasTaken(pc: Pc) {
    pc == SignalLocked || pc == ReleaseLocked
  }

  /** Each job that was added is on the list, in the hands of the holder of the mutex, or started,
      in the order of addition. */
  ghost predicate JobsOk(s: State) {
    && (forall t :: t in s.taken <==> t in s.pcs && HasTaken(s.pcs[t]))
    && s.added == s.started + (if s.mutex.Some? && s.mutex.value in s.taken then [s.taken[s.mutex.value]] else []) + s.jobs
  }

  /** Who is about to wait has seen an empty list, and who is about to signal a list with more jobs. */
  ghost predicate ListOk(s: State) {
    && (forall t :: t in s.pcs && s.pcs[t] == WaitLocked ==> s.jobs == [])
    && (forall t :: t in s.pcs && s.pcs[t] == SignalLocked ==> s.jobs != [])
  }

  /** No wakeup is lost. */
  ghost predicate WakeupOk(s: State) {
    && (s.jobs != [] && SomeoneWaits(s) ==> SomeoneAlert(s))
    && ListOk(s)
  }

  ghost predicate Inv(s: State) {
    MutexOk(s) && JobsOk(s) && WakeupOk(s)
  }

  lemma InitInv(s: State)
    requires Init(s)
    ensures Inv(s)
  {}

  lemma NextInv(s: State, s': State)
    requires Inv(s) && Next(s, s')
    ensures Inv(s')
  {
    var t :| Work(s, s', t) || Add(s, s', t) || SpuriousWakeup(s, s', t);
    if Work(s, s', t) {
      WorkInv(s, s', t);
    } else if Add(s, s', t) {
      AddInv(s, s', t);
    } else {
      assert Woken == s'.pcs[t];
    }
  }

  /** The alert threads that take no step here stay alert. */
  lemma OthersStayAlert(s: State, s': State, t: Thread)
    requires Work(s, s', t) || Add(s, s', t)
    ensures forall u :: u in s.pcs && u != t && Alert(s.pcs[u]) ==> u in s'.pcs && Alert(s'.pcs[u])
    ensures forall u :: u in s'.pcs && u != t && s'.pcs[u] == Waiting ==> u in s.pcs && s.pcs[u] == Waiting
  {
    SameThreads(s, s', t);
    forall u | u in s.pcs && u != t { OtherStaysAlert(s, s', t, u); }
  }

  lemma SameThreads(s: State, s': State, t: Thread)
    requires Work(s, s', t) || Add(s, s', t)
    ensures s'.pcs.Keys == s.pcs.Keys
  {
    if Work(s, s', t) {} else {}
  }

  lemma OtherStaysAlert(s: State, s': State, t: Thread, u: Thread)
    requires (Work(s, s', t) || Add(s, s', t)) && u in s.pcs && u in s'.pcs && u != t
    ensures Alert(s.pcs[u]) ==> Alert(s'.pcs[u])
    ensures s'.pcs[u] == Waiting ==> s.pcs[u] == Waiting
  {}

  lemma WorkKeepsList(s: State, s': State, t: Thread)
    requires Inv(s) && Work(s, s', t)
    ensures ListOk(s')
  {}

  lemma AddKeepsList(s: State, s': State, t: Thread)
    requires Inv(s) && Add(s, s', t)
    ensures ListOk(s')
  {}

  /** Whoever makes the list non-empty, or stops looking at it, leaves somebody who will. */
  lemma StepperAlert(s: State, s': State, t: Thread)
    requires Inv(s) && (Work(s, s', t) || Add(s, s', t)) && s'.jobs != []
    ensures Alert(s.pcs[t]) || s.jobs == [] ==> SomeoneAlert(s') || !SomeoneWaits(s')
  {
    if (s.pcs[t] == SignalLocked || s.pcs[t] == NotifyLocked) && SomeoneWaits(s') {
      var woken :| Signal(s, s', t, woken);
      var w :| w in woken;
      assert Alert(s'.pcs[w]);
    } else if Alert(s.pcs[t]) || s.jobs == [] {
      assert Alert(s'.pcs[t]) || !SomeoneWaits(s');
    }
  }

  lemma AlertKept(s: State, s': State, t: Thread)
    requires Inv(s) && (Work(s, s', t) || Add(s, s', t))
    ensures s'.jobs != [] && SomeoneWaits(s') ==> SomeoneAlert(s')
  {
    if s'.jobs != [] && SomeoneWaits(s') {
      StepperAlert(s, s', t);
      OthersStayAlert(s, s', t);
    }
  }

  lemma WorkKeepsMutex(s: State, s': State, t: Thread)
    requires Inv(s) && Work(s, s', t)
    ensures MutexOk(s')
  {}

  lemma DequeueKeepsJobs(s: State, s': State, t: Thread)
    requires Inv(s) && Dequeue(s, s', t)
    ensures JobsOk(s')
  {
    assert s.mutex == Some(t);
    if |s.jobs| > 0 {
      assert s.jobs == [s.jobs[0]] + s.jobs[1..];
    }
  }

  lemma StartKeepsJobs(s: State, s': State, t: Thread)
    requires Inv(s) && Start(s, s', t)
    ensures JobsOk(s')
  {
    assert s.mutex == Some(t);
  }

  lemma WorkKeepsJobs(s: State, s': State, t: Thread)
    requires Inv(s) && Work(s, s', t)
    ensures JobsOk(s')
  {
    if s.pcs[t] == ReleaseLocked {
      StartKeepsJobs(s, s', t);
    } else if s.pcs[t] == LoopLocked {
      DequeueKeepsJobs(s, s', t);
    }
  }

  lemma WorkInv(s: State, s': State, t: Thread)
    requires Inv(s) && Work(s, s', t)
    ensures Inv(s')
  {
    WorkKeepsMutex(s, s', t);
    WorkKeepsJobs(s, s', t);
    AlertKept(s, s', t);
    WorkKeepsList(s, s', t);
  }

  lemma AddKeepsMutex(s: State, s': State, t: Thread)
    requires Inv(s) && Add(s, s', t)
    ensures MutexOk(s')
  {}

  lemma AddKeepsJobs(s: State, s': State, t: Thread)
    requires Inv(s) && Add(s, s', t)
    ensures JobsOk(s')
  {}

  lemma AddInv(s: State, s': State, t: Thread)
    requires Inv(s) && Add(s, s', t)
    ensures Inv(s')
  {
    AddKeepsMutex(s, s', t);
    AddKeepsJobs(s, s', t);
    AlertKept(s, s', t);
    AddKeepsList(s, s', t);
  }

  // ----- safety over runs -----

  lemma {:induction false} RunInv(r: seq<State>, i: nat)
    requires Run(r) && i < |r|
    ensures Inv(r[i])
  {
    if i == 0 {
      InitInv(r[0]);
    } else {
      RunInv(r, i - 1);
      assert Next(r[i - 1], r[i]);
      NextInv(r[i - 1], r[i]);
    }
  }

  /** In every reachable state the started jobs are the first ones that were added, once each and in
      the order of addition; and while no thread holds the mutex, the others are on the list. */
  lemma JobsStartInOrder(r: seq<State>, i: nat)
    requires Run(r) && i < |r|
    ensures r[i].started <= r[i].added
    ensures exists hand :: |hand| <= 1 && r[i].added == r[i].started + hand + r[i].jobs
    ensures r[i].mutex == None ==> r[i].added == r[i].started + r[i].jobs
  {
    RunInv(r, i);
    JobsInHand(r[i]);
  }

  lemma JobsInHand(s: State)
    requires JobsOk(s)
    ensures exists hand :: |hand| <= 1 && s.added == s.started + hand + s.jobs
    ensures s.started <= s.added && (s.mutex == None ==> s.added == s.started + s.jobs)
  {
    var hand := if s.mutex.Some? && s.mutex.value in s.taken then [s.taken[s.mutex.value]] else [];
    assert |hand| <= 1 && s.added == s.started + hand + s.jobs;
  }

  /** While the list is not empty and a worker waits, and no thread is inside the critical section,
      a worker is awake and not in a job. */
  lemma NoLostWakeup(r: seq<State>, i: nat)
    requires Run(r) && i < |r| && r[i].mutex == None && r[i].jobs != [] && SomeoneWaits(r[i])
    ensures exists t :: t in r[i].pcs && r[i].pcs[t] in {Entering, Relocking, Woken}
  {
    RunInv(r, i);
    var t :| t in r[i].pcs && Alert(r[i].pcs[t]);
  }

  // ----- all jobs are started -----

  function Weight(pc: Pc): nat {
    match pc
    case SignalLocked => 7
    case ReleaseLocked => 6
    case InJob(_) => 5
    case Relocking => 4
    case TestLocked => 3
    case Entering => 3
    case Woken => 3
    case LoopLocked => 2
    case WaitLocked => 1
    case _ => 0
  }

  ghost function Heavier(s: State, k: nat): set<Thread> {
    set t | t in s.pcs && Weight(s.pcs[t]) >= k
  }

  ghost function Sum(s: State, k: nat): nat {
    if k == 0 then 0 else |Heavier(s, k)| + Sum(s, k - 1)
  }

  /** How many steps the workers can take at most, if nothing is added and no wakeup is spurious. */
  ghost function Measure(s: State): nat {
    (6 + 3 * |s.pcs|) * |s.jobs| + Sum(s, 7) + 3 * |s.pcs| * |Heavier(s, 7)|
  }

  /** One thread gets lighter or heavier, the others stay as they are. */
  lemma {:induction false} OneMoves(s: State, s': State, t: Thread, k: nat)
    requires t in s.pcs && s'.pcs.Keys == s.pcs.Keys && k <= 7
    requires forall u :: u in s.pcs && u != t ==> Weight(s'.pcs[u]) == Weight(s.pcs[u])
    ensures var a, b := Weight(s.pcs[t]), Weight(s'.pcs[t]);
            Sum(s', k) + (if a < k then a else k) == Sum(s, k) + (if b < k then b else k)
  {
    if k > 0 {
      OneMoves(s, s', t, k - 1);
      var H, H' := Heavier(s, k), Heavier(s', k);
      assert H' - {t} == H - {t};
      assert |H'| == |H' - {t}| + (if t in H' then 1 else 0) && |H| == |H - {t}| + (if t in H then 1 else 0);
    }
  }

  /** Woken threads are waiting ones that have become as heavy as Woken. */
  ghost predicate Wakes(s: State, s': State, woken: set<Thread>) {
    && woken <= s.pcs.Keys && s'.pcs.Keys == s.pcs.Keys
    && (forall u :: u in s.pcs ==> s'.pcs[u] == if u in woken then Woken else s.pcs[u])
    && forall w :: w in woken ==> s.pcs[w] == Waiting
  }

  lemma WokenAreHeavier(s: State, s': State, woken: set<Thread>, k: nat)
    requires Wakes(s, s', woken) && k > 0
    ensures |Heavier(s', k)| == |Heavier(s, k)| + if k <= 3 then |woken| else 0
  {
    var H, H' := Heavier(s, k), Heavier(s', k);
    if k <= 3 {
      assert H' == H + woken && H !! woken;
    } else {
      assert H' == H;
    }
  }

  lemma {:induction false} SomeWake(s: State, s': State, woken: set<Thread>, k: nat)
    requires Wakes(s, s', woken)
    ensures Sum(s', k) == Sum(s, k) + if k == 0 then 0 else if k == 1 then |woken| else if k == 2 then 2 * |woken| else 3 * |woken|
  {
    if k > 0 {
      SomeWake(s, s', woken, k - 1);
      WokenAreHeavier(s, s', woken, k);
    }
  }

  lemma SubsetSize<T>(a: set<T>, b: set<T>)
    requires a <= b
    ensures |a| <= |b|
  {
    assert b == a + (b - a);
  }

  lemma SignalHeaviest(s: State, s': State, t: Thread, woken: set<Thread>)
    requires Signal(s, s', t, woken) && s.pcs[t] == SignalLocked
    ensures t in Heavier(s, 7) && Heavier(s', 7) == Heavier(s, 7) - {t}
  {}

  lemma SignalSums(s: State, s': State, t: Thread, woken: set<Thread>)
    requires Signal(s, s', t, woken) && s.pcs[t] == SignalLocked
    ensures s'.pcs.Keys == s.pcs.Keys && |woken| <= |s.pcs.Keys| && Sum(s', 7) == Sum(s, 7) - 1 + 3 * |woken|
  {
    var mid := Move(s, t, ReleaseLocked);
    OneMoves(s, mid, t, 7);
    SomeWake(mid, s', woken, 7);
    SubsetSize(woken, s.pcs.Keys);
  }

  lemma SignalDecreases(s: State, s': State, t: Thread, woken: set<Thread>)
    requires Signal(s, s', t, woken) && s.pcs[t] == SignalLocked
    ensures Measure(s') < Measure(s)
  {
    SignalSums(s, s', t, woken);
    SignalHeaviest(s, s', t, woken);
    assert |s.pcs| == |s.pcs.Keys| && |s'.pcs| == |s'.pcs.Keys|;
    SignalPays(|s.pcs|, |Heavier(s, 7)|, |woken|);
  }

  lemma SignalPays(n: nat, h: nat, w: nat)
    requires w <= n && h > 0
    ensures 3 * w + 3 * n * (h - 1) <= 3 * n * h
  {
    assert 3 * n * h == 3 * n * (h - 1) + 3 * n;
  }

  /** A thread takes a step towards waiting and leaves the list as it is. */
  lemma LighterDecreases(s: State, s': State, t: Thread)
    requires t in s.pcs && s'.pcs.Keys == s.pcs.Keys && s'.jobs == s.jobs
    requires forall u :: u in s.pcs && u != t ==> s'.pcs[u] == s.pcs[u]
    requires Weight(s'.pcs[t]) < Weight(s.pcs[t]) < 7
    ensures Measure(s') < Measure(s)
  {
    assert |s.pcs| == |s.pcs.Keys| && |s'.pcs| == |s'.pcs.Keys|;
    OneMoves(s, s', t, 7);
    assert Heavier(s', 7) == Heavier(s, 7);
  }

  /** A thread takes a job from the list. */
  lemma TakingDecreases(s: State, s': State, t: Thread)
    requires t in s.pcs && s'.pcs.Keys == s.pcs.Keys && |s.jobs| == |s'.jobs| + 1
    requires forall u :: u in s.pcs && u != t ==> s'.pcs[u] == s.pcs[u]
    requires s.pcs[t] == LoopLocked && HasTaken(s'.pcs[t])
    ensures Measure(s') < Measure(s)
  {
    assert |s.pcs| == |s.pcs.Keys| && |s'.pcs| == |s'.pcs.Keys|;
    OneMoves(s, s', t, 7);
    var H, H' := Heavier(s, 7), Heavier(s', 7);
    assert t !in H && H' == if s'.pcs[t] == SignalLocked then H + {t} else H;
    TakingPays(|s.pcs|, |s.jobs|, |s'.jobs|, |H|, |H'|);
  }

  lemma TakingPays(n: nat, j: nat, j': nat, h: nat, h': nat)
    requires j == j' + 1 && h' <= h + 1
    ensures (6 + 3 * n) * j + 3 * n * h >= (6 + 3 * n) * j' + 3 * n * h' + 6
  {
    assert (6 + 3 * n) * j == (6 + 3 * n) * j' + 6 + 3 * n;
    assert 3 * n * h' <= 3 * n * (h + 1) == 3 * n * h + 3 * n;
  }

  lemma WorkDecreases(s: State, s': State, t: Thread)
    requires Inv(s) && Work(s, s', t)
    ensures Measure(s') < Measure(s) && s'.pcs.Keys == s.pcs.Keys && s'.added == s.added
  {
    if s.pcs[t] == SignalLocked {
      var woken :| Signal(s, s', t, woken);
      SignalDecreases(s, s', t, woken);
    } else if s.pcs[t] == LoopLocked && |s.jobs| > 0 {
      TakingDecreases(s, s', t);
    } else {
      LighterDecreases(s, s', t);
    }
  }

  // ----- threads that add work finish, too -----

  /** The steps of a thread that is already inside add_work. */
  ghost predicate Leave(s: State, s': State, t: Thread) {
    t in s.pcs && s.pcs[t] != Idle && Add(s, s', t)
  }

  /** How much an adding thread in the critical section can still bring about. */
  ghost function Owed(s: State): nat {
    if s.mutex.Some? && s.mutex.value in s.pcs then
      match s.pcs[s.mutex.value]
      case PushLocked => 9 + 6 * |s.pcs|
      case NotifyLocked => 2 + 3 * |s.pcs|
      case LeaveLocked => 1
      case _ => 0
    else 0
  }

  /** How many steps are left at most, if no further call of add_work begins and no wakeup is spurious. */
  ghost function Left(s: State): nat {
    Measure(s) + Owed(s)
  }

  lemma WorkOwes(s: State, s': State, t: Thread)
    requires Inv(s) && Work(s, s', t) && s'.pcs.Keys == s.pcs.Keys
    ensures Owed(s') <= Owed(s)
  {
    assert |s.pcs| == |s.pcs.Keys| && |s'.pcs| == |s'.pcs.Keys|;
  }

  /** An adding thread moves on, and all weights stay as they are. */
  lemma {:induction false} SameWeights(s: State, s': State, k: nat)
    requires s'.pcs.Keys == s.pcs.Keys && forall u :: u in s.pcs ==> Weight(s'.pcs[u]) == Weight(s.pcs[u])
    ensures Sum(s', k) == Sum(s, k) && Heavier(s', k) == Heavier(s, k)
  {
    assert Heavier(s', k) == Heavier(s, k);
    if k > 0 { SameWeights(s, s', k - 1); }
  }

  lemma PushPays(n: nat, j: nat)
    ensures (6 + 3 * n) * (j + 1) + 2 + 3 * n < (6 + 3 * n) * j + 9 + 6 * n
  {
    assert (6 + 3 * n) * (j + 1) == (6 + 3 * n) * j + 6 + 3 * n;
  }

  lemma PushWeighs(s: State, s': State, t: Thread, job: Job)
    requires Inv(s) && Push(s, s', t, job)
    ensures s'.pcs.Keys == s.pcs.Keys && Sum(s', 7) == Sum(s, 7) && Heavier(s', 7) == Heavier(s, 7)
    ensures |s'.pcs| == |s.pcs| && Owed(s) == 9 + 6 * |s.pcs|
    ensures (|s'.jobs| == |s.jobs| + 1 && Owed(s') == 2 + 3 * |s.pcs|) || (|s'.jobs| == |s.jobs| && Owed(s') == 1)
  {
    assert s'.pcs.Keys == s.pcs.Keys;
    assert |s.pcs| == |s.pcs.Keys| && |s'.pcs| == |s'.pcs.Keys|;
    SameWeights(s, s', 7);
  }

  lemma PushLowers(s: State, s': State)
    requires Sum(s', 7) == Sum(s, 7) && Heavier(s', 7) == Heavier(s, 7)
    requires |s'.pcs| == |s.pcs| && Owed(s) == 9 + 6 * |s.pcs|
    requires (|s'.jobs| == |s.jobs| + 1 && Owed(s') == 2 + 3 * |s.pcs|) || (|s'.jobs| == |s.jobs| && Owed(s') == 1)
    ensures Left(s') < Left(s)
  {
    PushPays(|s.pcs|, |s.jobs|);
  }

  lemma PushDecreases(s: State, s': State, t: Thread, job: Job)
    requires Inv(s) && Push(s, s', t, job)
    ensures Left(s') < Left(s) && s'.pcs.Keys == s.pcs.Keys
  {
    PushWeighs(s, s', t, job);
    PushLowers(s, s');
  }

  lemma UnlockWeighs(s: State, s': State, t: Thread)
    requires Inv(s) && Unlock(s, s', t)
    ensures s'.pcs.Keys == s.pcs.Keys && Sum(s', 7) == Sum(s, 7) && Heavier(s', 7) == Heavier(s, 7)
    ensures |s'.pcs| == |s.pcs| && s'.jobs == s.jobs && Owed(s) == 1 && Owed(s') == 0
  {
    assert s'.pcs.Keys == s.pcs.Keys;
    assert |s.pcs| == |s.pcs.Keys| && |s'.pcs| == |s'.pcs.Keys|;
    SameWeights(s, s', 7);
  }

  lemma UnlockDecreases(s: State, s': State, t: Thread)
    requires Inv(s) && Unlock(s, s', t)
    ensures Left(s') < Left(s) && s'.pcs.Keys == s.pcs.Keys
  {
    UnlockWeighs(s, s', t);
  }

  lemma NotifySums(s: State, s': State, t: Thread, woken: set<Thread>)
    requires Signal(s, s', t, woken) && s.pcs[t] == NotifyLocked
    ensures s'.pcs.Keys == s.pcs.Keys && |woken| <= |s.pcs.Keys|
    ensures Sum(s', 7) == Sum(s, 7) + 3 * |woken| && |Heavier(s', 7)| == |Heavier(s, 7)|
  {
    var mid := Move(s, t, LeaveLocked);
    assert mid.pcs.Keys == s.pcs.Keys;
    SameWeights(s, mid, 7);
    SomeWake(mid, s', woken, 7);
    WokenAreHeavier(mid, s', woken, 7);
    SubsetSize(woken, s.pcs.Keys);
  }

  lemma NotifyDecreases(s: State, s': State, t: Thread, woken: set<Thread>)
    requires Inv(s) && Signal(s, s', t, woken) && s.pcs[t] == NotifyLocked
    ensures Left(s') < Left(s) && s'.pcs.Keys == s.pcs.Keys
  {
    NotifySums(s, s', t, woken);
    assert |s.pcs| == |s.pcs.Keys| && |s'.pcs| == |s'.pcs.Keys|;
    assert s.mutex == Some(t) && s'.jobs == s.jobs;
  }

  lemma LeaveDecreases(s: State, s': State, t: Thread)
    requires Inv(s) && Leave(s, s', t)
    ensures Left(s') < Left(s) && s'.pcs.Keys == s.pcs.Keys && s.added <= s'.added
  {
    if job :| Push(s, s', t, job) {
      PushDecreases(s, s', t, job);
    } else if s.pcs[t] == NotifyLocked {
      var woken :| Signal(s, s', t, woken);
      NotifyDecreases(s, s', t, woken);
    } else {
      UnlockDecreases(s, s', t);
    }
  }

  /** The steps of workers and of threads inside add_work. */
  ghost predicate GoesOn(s: State, s': State) {
    exists t :: Work(s, s', t) || Leave(s, s', t)
  }

  lemma GoingOnDecreases(s: State, s': State)
    requires Inv(s) && GoesOn(s, s')
    ensures Inv(s') && Left(s') < Left(s) && s'.pcs.Keys == s.pcs.Keys && s.added <= s'.added
  {
    var t :| Work(s, s', t) || Leave(s, s', t);
    if Work(s, s', t) {
      WorkInv(s, s', t);
      WorkDecreases(s, s', t);
      WorkOwes(s, s', t);
    } else {
      AddInv(s, s', t);
      LeaveDecreases(s, s', t);
    }
  }

  /** After a reachable state, no further call of add_work begins. */
  ghost predicate LastRun(r: seq<State>) {
    r != [] && Inv(r[0]) && forall i {:trigger r[i]} :: 0 < i < |r| ==> GoesOn(r[i - 1], r[i])
  }

  /** Threads that are left alone come to rest. */
  lemma {:induction false} WorkEnds(r: seq<State>, i: nat)
    requires LastRun(r) && i < |r|
    ensures Inv(r[i]) && Left(r[i]) + i <= Left(r[0])
    ensures r[i].pcs.Keys == r[0].pcs.Keys && r[0].added <= r[i].added
  {
    if i > 0 {
      WorkEnds(r, i - 1);
      assert GoesOn(r[i - 1], r[i]);
      GoingOnDecreases(r[i - 1], r[i]);
    }
  }

  // ----- at rest -----

  ghost predicate AtRest(s: State) {
    forall s' :: !GoesOn(s, s')
  }

  /** When no thread can go on, every job that was added has been started, all workers wait and no
      thread is adding. */
  lemma RestMeansStarted(s: State)
    requires Inv(s) && AtRest(s) && exists w :: w in s.pcs && IsWorker(s.pcs[w])
    ensures s.started == s.added && s.jobs == [] && s.mutex == None
    ensures forall t :: t in s.pcs ==> s.pcs[t] == if IsWorker(s.pcs[t]) then Waiting else Idle
  {
    if s.mutex.Some? { HolderCanGoOn(s); }
    forall t | t in s.pcs ensures s.pcs[t] == if IsWorker(s.pcs[t]) then Waiting else Idle {
      if s.pcs[t] != Waiting && s.pcs[t] != Idle { FreeCanGoOn(s, t); }
    }
    var w :| w in s.pcs && IsWorker(s.pcs[w]);
    assert SomeoneWaits(s);
  }

  lemma Works(s: State, s': State, t: Thread)
    requires Work(s, s', t) || Leave(s, s', t)
    ensures !AtRest(s)
  {
    assert GoesOn(s, s');
  }

  /** While nobody holds the mutex, a thread that neither waits nor is outside add_work can go on. */
  lemma FreeCanGoOn(s: State, t: Thread)
    requires Inv(s) && s.mutex == None && t in s.pcs && s.pcs[t] != Waiting && s.pcs[t] != Idle
    ensures !AtRest(s)
  {
    match s.pcs[t]
    case Entering => Works(s, Move(s, t, LoopLocked).(mutex := Some(t)), t);
    case Relocking => Works(s, Move(s, t, TestLocked).(mutex := Some(t)), t);
    case Woken => Works(s, Move(s, t, LoopLocked).(mutex := Some(t)), t);
    case InJob(_) => Works(s, Move(s, t, Relocking), t);
    case _ =>
  }

  /** The thread that holds the mutex can go on. */
  lemma HolderCanGoOn(s: State)
    requires Inv(s) && s.mutex.Some?
    ensures !AtRest(s)
  {
    var u := s.mutex.value;
    match s.pcs[u]
    case LoopLocked =>
      if |s.jobs| > 0 {
        var pc := if |s.jobs| > 1 then SignalLocked else ReleaseLocked;
        Works(s, Move(s, u, pc).(jobs := s.jobs[1..], taken := s.taken[u := s.jobs[0]]), u);
      } else {
        Works(s, Move(s, u, WaitLocked), u);
      }
    case SignalLocked => CanSignal(s, u);
    case ReleaseLocked =>
      Works(s, Move(s, u, InJob(s.taken[u])).(mutex := None, taken := s.taken - {u}, started := s.started + [s.taken[u]]), u);
    case TestLocked => Works(s, Move(s, u, if |s.jobs| > 0 then LoopLocked else WaitLocked), u);
    case WaitLocked => Works(s, Move(s, u, Waiting).(mutex := None), u);
    case PushLocked =>
      assert Push(s, Move(s, u, LeaveLocked), u, 0);
      Works(s, Move(s, u, LeaveLocked), u);
    case NotifyLocked => CanSignal(s, u);
    case LeaveLocked => Works(s, Move(s, u, Idle).(mutex := None), u);
    case _ =>
  }

  lemma CanSignal(s: State, t: Thread)
    requires t in s.pcs && (s.pcs[t] == SignalLocked || s.pcs[t] == NotifyLocked)
    ensures !AtRest(s)
  {
    var woken := set w | w in s.pcs && s.pcs[w] == Waiting;
    var pc := if s.pcs[t] == SignalLocked then ReleaseLocked else LeaveLocked;
    var s' := s.(pcs := map w | w in s.pcs :: if w in woken then Woken else if w == t then pc else s.pcs[w]);
    assert woken == {} ==> forall w :: w in s.pcs ==> s.pcs[w] != Waiting by {
      forall w | w in s.pcs && s.pcs[w] == Waiting ensures w in woken {}
    }
    assert Signal(s, s', t, woken);
    Works(s, s', t);
  }

  // ----- work can be added, and is started -----

  /** While the mutex is free, any thread outside add_work can add any job. */
  lemma AnyoneCanAdd(s: State, t: Thread, job: Job) returns (locked: State, pushed: State)
    requires Inv(s) && s.mutex == None && t in s.pcs && s.pcs[t] == Idle
    ensures Next(s, locked) && Next(locked, pushed)
    ensures pushed.added == s.added + [job] && pushed.jobs == s.jobs + [job] && pushed.started == s.started
  {
    locked := Move(s, t, PushLocked).(mutex := Some(t));
    pushed := Move(locked, t, NotifyLocked).(jobs := s.jobs + [job], added := s.added + [job]);
    assert Add(s, locked, t);
    assert Push(locked, pushed, t, job);
    assert Add(locked, pushed, t);
  }

  /** One worker, 0, and one thread that adds job 7. */
  function Example(i: nat): State {
    var s := State([], None, map[0 := Entering, 1 := Idle], map[], [], []);
    var locked := s.(mutex := Some(1));
    var pushed := s.(jobs := [7], added := [7]);
    match i
    case 0 => s
    case 1 => locked.(pcs := map[0 := Entering, 1 := PushLocked])
    case 2 => pushed.(mutex := Some(1), pcs := map[0 := Entering, 1 := NotifyLocked])
    case 3 => pushed.(mutex := Some(1), pcs := map[0 := Entering, 1 := LeaveLocked])
    case 4 => pushed
    case 5 => pushed.(mutex := Some(0), pcs := map[0 := LoopLocked, 1 := Idle])
    case 6 => pushed.(mutex := Some(0), pcs := map[0 := ReleaseLocked, 1 := Idle], jobs := [], taken := map[0 := 7])
    case _ => pushed.(pcs := map[0 := InJob(7), 1 := Idle], jobs := [], started := [7])
  }

  lemma ExampleAdds(i: nat)
    requires i < 4
    ensures Next(Example(i), Example(i + 1))
  {
    var s, s' := Example(i), Example(i + 1);
    if i == 0 {
      assert s'.pcs == s.pcs[1 := PushLocked];
    } else if i == 1 {
      assert s'.pcs == s.pcs[1 := NotifyLocked] && [] + [7] == [7];
      assert Push(s, s', 1, 7);
    } else if i == 2 {
      assert Signal(s, s', 1, {});
    } else {
      assert s'.pcs == s.pcs[1 := Idle];
    }
    assert Add(s, s', 1);
  }

  lemma ExampleStarts(i: nat)
    requires 4 <= i < 7
    ensures Next(Example(i), Example(i + 1))
  {
    var s, s' := Example(i), Example(i + 1);
    if i == 4 {
      assert s'.pcs == s.pcs[0 := LoopLocked];
    } else if i == 5 {
      assert s'.pcs == s.pcs[0 := ReleaseLocked] && s'.taken == s.taken[0 := 7];
    } else {
      assert s'.pcs == s.pcs[0 := InJob(7)] && s.taken - {0} == map[] && [] + [7] == [7];
    }
    assert Work(s, s', 0);
  }

  lemma Extend(r: seq<State>, s: State, s': State)
    requires Run(r + [s]) && Next(s, s')
    ensures Run(r + [s] + [s'])
  {
    var q := r + [s] + [s'];
    forall i {:trigger q[i]} | 0 < i < |q| ensures Next(q[i - 1], q[i]) {
      if i < |q| - 1 { assert q[i - 1] == (r + [s])[i - 1] && q[i] == (r + [s])[i]; }
    }
  }

  lemma {:induction false} Along(f: nat -> State, n: nat) returns (r: seq<State>)
    requires Init(f(0)) && forall i: nat :: i < n ==> Next(f(i), f(i + 1))
    ensures Run(r + [f(n)])
  {
    r := [];
    if n > 0 {
      r := Along(f, n - 1);
      Extend(r, f(n - 1), f(n));
      r := r + [f(n - 1)];
    }
  }

  /** A whole run in which a job is added and started. */
  lemma JobIsStarted() returns (r: seq<State>)
    ensures Run(r) && r[|r| - 1].added == r[|r| - 1].started == [7]
  {
    forall i: nat | i < 7 ensures Next(Example(i), Example(i + 1)) {
      if i < 4 { ExampleAdds(i); } else { ExampleStarts(i); }
    }
    var before := Along(Example, 7);
    r := before + [Example(7)];
  }
}
