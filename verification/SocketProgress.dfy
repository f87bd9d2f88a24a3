/** What the socket service gets done: every job can go on and ends, every round of the server's loop
    ends, and serves the clients that select has reported and closes those that are to be closed. */
module SocketProgress {
  import opened Options
  import opened SocketService

  // ----- jobs -----

  /** How many steps a job has left at most. */
  function StepsLeft(stage: Stage): nat {
    match stage
    case CallData => 3
    case CallNew => 2
    case CallDel => 2
    case _ => 1
  }

  ghost function Unfinished(jobs: map<nat, Job>, k: nat): set<nat> {
    set id | id in jobs && StepsLeft(jobs[id].stage) >= k
  }

  ghost function JobWork(jobs: map<nat, Job>): nat {
    |Unfinished(jobs, 1)| + |Unfinished(jobs, 2)| + |Unfinished(jobs, 3)|
  }

  /** Every job can go on, whatever its callback returns. */
  lemma JobCanAct(k: Sockets, s: State, id: nat, ok: bool) returns (s': State)
    requires Inv(k, s) && id in s.jobs
    ensures JobActs(s, s', id)
    ensures match s.jobs[id].stage
            case Announce => GiveBack(s, s', id)
            case Return => GiveBack(s, s', id)
            case GiveUp => PendClose(s, s', id)
            case _ => CallBack(s, s', id, ok)
  {
    var fd := s.jobs[id].fd;
    assert JobPlace(s, fd);
    match s.jobs[id].stage
    case Announce =>
      s' := s.(jobs := s.jobs - {id}, maxFd := Max(fd, s.maxFd), pending := s.pending + {fd}, wakeups := s.wakeups + 2);
      assert GiveBack(s, s', id);
    case Return =>
      s' := s.(jobs := s.jobs - {id}, pending := s.pending + {fd}, wakeups := s.wakeups + 1);
      assert GiveBack(s, s', id);
    case GiveUp =>
      s' := s.(jobs := s.jobs - {id}, pendingClose := s.pendingClose + {fd});
      assert PendClose(s, s', id);
    case _ =>
      var (e, stage) := Called(s.jobs[id].stage, ok).value;
      s' := s.(jobs := Goto(s, id, stage), logs := Log(s, fd, e));
      assert CallBack(s, s', id, ok);
  }

  ghost predicate ActsAlone(s: State, s': State, id: nat) {
    && id in s.jobs && s'.jobs - {id} == s.jobs - {id} && s'.server == s.server && s'.clients == s.clients && s'.open == s.open
    && (id in s'.jobs ==> s'.jobs[id].fd == s.jobs[id].fd && StepsLeft(s'.jobs[id].stage) < StepsLeft(s.jobs[id].stage))
  }

  lemma CallBackAlone(s: State, s': State, id: nat, ok: bool)
    requires CallBack(s, s', id, ok)
    ensures ActsAlone(s, s', id)
  {
    assert s'.jobs - {id} == s.jobs - {id};
  }

  lemma EndAlone(s: State, s': State, id: nat)
    requires GiveBack(s, s', id) || PendClose(s, s', id)
    ensures ActsAlone(s, s', id)
  {
    assert s'.jobs - {id} == s.jobs - {id};
  }

  /** A step of a job leaves the other jobs, the server and the clients alone. */
  lemma JobActsAlone(s: State, s': State, id: nat)
    requires JobActs(s, s', id)
    ensures ActsAlone(s, s', id)
  {
    if ok :| CallBack(s, s', id, ok) { CallBackAlone(s, s', id, ok); } else { EndAlone(s, s', id); }
  }

  lemma SmallerSet<T>(a: set<T>, b: set<T>)
    requires a <= b
    ensures |a| <= |b| && (a != b ==> |a| < |b|)
  {
    assert b == a + (b - a);
  }

  lemma FewerUnfinished(j: map<nat, Job>, j': map<nat, Job>, id: nat, k: nat)
    requires id in j && j' - {id} == j - {id} && (id in j' ==> StepsLeft(j'[id].stage) < StepsLeft(j[id].stage))
    ensures |Unfinished(j', k)| <= |Unfinished(j, k)|
    ensures k == StepsLeft(j[id].stage) ==> |Unfinished(j', k)| < |Unfinished(j, k)|
  {
    forall i | i in Unfinished(j', k) ensures i in Unfinished(j, k) {
      if i != id { assert i in (j' - {id}) && (j' - {id})[i] == (j - {id})[i]; }
    }
    if k == StepsLeft(j[id].stage) { assert id in Unfinished(j, k) && id !in Unfinished(j', k); }
    SmallerSet(Unfinished(j', k), Unfinished(j, k));
  }

  lemma JobWorkDrops(k: Sockets, s: State, s': State, id: nat)
    requires Inv(k, s) && JobActs(s, s', id)
    ensures JobWork(s'.jobs) < JobWork(s.jobs)
  {
    JobActsAlone(s, s', id);
    FewerUnfinished(s.jobs, s'.jobs, id, 1);
    FewerUnfinished(s.jobs, s'.jobs, id, 2);
    FewerUnfinished(s.jobs, s'.jobs, id, 3);
  }

  /** A client whose some_data has returned true is waited for again, and the server is woken. */
  lemma WaitsAgain(k: Sockets, s: State, s': State, id: nat)
    requires Inv(k, s) && id in s.jobs && s.jobs[id].stage in {Announce, Return} && JobActs(s, s', id)
    ensures s'.pending == s.pending + {s.jobs[id].fd} && s.jobs[id].fd <= s'.maxFd && s.wakeups < s'.wakeups && id !in s'.jobs
  {
    assert JobPlace(s, s.jobs[id].fd);
  }

  // ----- the server can always go on -----

  lemma FreshId(s: set<nat>) returns (id: nat)
    ensures id !in s && forall n :: n in s ==> n < id
  {
    id := 0;
    var rest := s;
    while rest != {}
      invariant rest <= s && forall n :: n in s && n !in rest ==> n < id
    {
      var n :| n in rest;
      id := if id <= n then n + 1 else id;
      rest := rest - {n};
    }
  }

  lemma MaxFdExists(k: Sockets, clients: set<Fd>) returns (m: nat)
    ensures IsMaxFd(k, clients, m)
  {
    m := Max(k.listen, k.ctl);
    var rest := clients;
    while rest != {}
      invariant rest <= clients && (m == k.listen || m == k.ctl || m in clients) && m >= k.listen && m >= k.ctl
      invariant forall fd :: fd in clients && fd !in rest ==> fd <= m
    {
      var fd :| fd in rest;
      m := Max(m, fd);
      rest := rest - {fd};
    }
  }

  /** Before select the server closes and copies. */
  lemma CanClose(k: Sockets, s: State) returns (s': State, m: nat)
    requires Inv(k, s) && s.server == Closing
    ensures CloseAndCopy(k, s, s', m)
  {
    if s.pendingClose == {} { m := s.maxFd; } else { m := MaxFdExists(k, s.clients - s.pendingClose); }
    s' := s.(server := Selecting(s.pending - s.pendingClose), clients := s.clients - s.pendingClose, pending := s.pending - s.pendingClose,
             pendingClose := {}, maxFd := m, open := s.open - s.pendingClose, logs := ClosedLogs(s));
    forall fd | fd in s.pendingClose ensures fd in s.open && s.open[fd] in s.logs {}
  }

  /** select can report any of the descriptors that were copied, the pipe if and only if it can be read. */
  lemma CanReport(k: Sockets, s: State, ready: set<Fd>) returns (s': State)
    requires Inv(k, s) && s.server.Selecting? && ready != {} && ready <= s.server.rset && (k.ctl in ready <==> s.wakeups > 0)
    ensures SelectReturns(k, s, s', ready) && s'.server == Accepting(ready)
    ensures s'.wakeups == if k.ctl in ready then s.wakeups - 1 else s.wakeups
  {
    s' := s.(server := Accepting(ready), wakeups := if k.ctl in ready then s.wakeups - 1 else s.wakeups);
  }

  /** A socket that the kernel gives out is accepted if the listening socket was reported. */
  lemma CanAccept(k: Sockets, s: State, fd: Fd, conn: Conn) returns (s': State)
    requires Inv(k, s) && s.server.Accepting? && k.listen in s.server.ready
    requires fd !in s.open && fd != k.listen && fd != k.ctl && conn !in s.logs
    ensures Accept(k, s, s', fd, conn) && s'.server == QueueingNew(s.server.ready, fd) && fd in s'.clients
  {
    s' := s.(server := QueueingNew(s.server.ready, fd), clients := s.clients + {fd}, open := s.open[fd := conn], logs := s.logs[conn := []]);
  }

  /** In select and after it there is always a next step; a job can be queued where one is needed. */
  lemma ServerCanStep(k: Sockets, s: State) returns (s': State)
    requires Inv(k, s)
    ensures ServerStep(k, s, s')
    ensures s.server.QueueingNew? || s.server.QueueingData? ==> s'.jobs != s.jobs
  {
    match s.server
    case Closing =>
      var m;
      s', m := CanClose(k, s);
    case Selecting(rset) =>
      if s.wakeups == 0 {
        s' := s.(server := Closing);
        assert SelectTimesOut(k, s, s');
      } else {
        s' := CanReport(k, s, {k.ctl});
      }
    case Accepting(ready) =>
      s' := s.(server := Visiting(ready, s.clients));
      assert NoAccept(k, s, s');
    case QueueingNew(ready, fd) =>
      var id := FreshId(s.jobs.Keys);
      s' := s.(server := Visiting(ready, s.clients), jobs := s.jobs[id := Job(fd, CallNew)]);
      assert QueueNew(k, s, s', id) && id in s'.jobs && id !in s.jobs;
    case Visiting(ready, todo) =>
      if todo == {} {
        s' := s.(server := Closing);
        assert EndVisits(k, s, s');
      } else {
        var fd :| fd in todo;
        s' := if fd in ready then s.(server := QueueingData(ready, todo - {fd}, fd), pending := s.pending - {fd})
              else s.(server := Visiting(ready, todo - {fd}));
        assert Visit(k, s, s', fd);
      }
    case QueueingData(ready, todo, fd) =>
      var id := FreshId(s.jobs.Keys);
      s' := s.(server := Visiting(ready, todo), jobs := s.jobs[id := Job(fd, CallData)]);
      assert QueueData(k, s, s', id) && id in s'.jobs && id !in s.jobs;
  }

  // ----- rounds end -----

  /** How many steps the server takes at most before it closes and copies again. */
  function RoundLeft(s: State): nat {
    match s.server
    case Closing => 0
    case Selecting(_) => 6 + 2 * |s.clients|
    case Accepting(_) => 5 + 2 * |s.clients|
    case QueueingNew(_, _) => 2 + 2 * |s.clients|
    case Visiting(_, todo) => 1 + 2 * |todo|
    case QueueingData(_, todo, _) => 2 + 2 * |todo|
  }

  /** A step of the server inside a round. */
  ghost predicate RoundStep(k: Sockets, s: State, s': State) {
    s.server != Closing && ServerStep(k, s, s')
  }

  lemma AcceptLowers(k: Sockets, s: State, s': State, fd: Fd, conn: Conn)
    requires Accept(k, s, s', fd, conn)
    ensures RoundLeft(s') < RoundLeft(s)
  {
    assert s'.clients == s.clients + {fd} && |s'.clients| <= |s.clients| + 1;
  }

  lemma VisitLowers(k: Sockets, s: State, s': State, fd: Fd)
    requires Visit(k, s, s', fd)
    ensures RoundLeft(s') < RoundLeft(s)
  {
    assert |s.server.todo - {fd}| == |s.server.todo| - 1;
  }

  lemma QueueLowers(k: Sockets, s: State, s': State, id: nat)
    requires QueueNew(k, s, s', id) || QueueData(k, s, s', id)
    ensures RoundLeft(s') < RoundLeft(s) && id !in s.jobs && s'.jobs == s.jobs[id := s'.jobs[id]]
  {}

  lemma QuietLowers(k: Sockets, s: State, s': State)
    requires NoAccept(k, s, s') || EndVisits(k, s, s') || QueueNewFails(k, s, s') || QueueDataFails(k, s, s')
    ensures RoundLeft(s') < RoundLeft(s) && s'.jobs == s.jobs
  {}

  lemma SelectLowers(k: Sockets, s: State, s': State)
    requires SelectFails(k, s, s') || SelectTimesOut(k, s, s') || exists ready :: SelectReturns(k, s, s', ready)
    ensures RoundLeft(s') < RoundLeft(s) && s'.jobs == s.jobs
  {}

  /** A step of the server brings the round nearer to its end, and one job, with three steps left, at most. */
  lemma RoundGoesOn(k: Sockets, s: State, s': State)
    requires RoundStep(k, s, s')
    ensures RoundLeft(s') < RoundLeft(s) && JobWork(s'.jobs) <= JobWork(s.jobs) + 3
  {
    if fd, conn :| Accept(k, s, s', fd, conn) {
      AcceptLowers(k, s, s', fd, conn);
    } else if fd :| Visit(k, s, s', fd) {
      VisitLowers(k, s, s', fd);
    } else if id :| QueueNew(k, s, s', id) || QueueData(k, s, s', id) {
      QueueLowers(k, s, s', id);
      OneMoreJob(s.jobs, id, s'.jobs[id]);
    } else if NoAccept(k, s, s') || EndVisits(k, s, s') || QueueNewFails(k, s, s') || QueueDataFails(k, s, s') {
      QuietLowers(k, s, s');
    } else {
      SelectLowers(k, s, s');
    }
  }

  lemma OneMoreJob(jobs: map<nat, Job>, id: nat, job: Job)
    requires id !in jobs
    ensures JobWork(jobs[id := job]) <= JobWork(jobs) + 3
  {
    OneMoreUnfinished(jobs, id, job, 1);
    OneMoreUnfinished(jobs, id, job, 2);
    OneMoreUnfinished(jobs, id, job, 3);
  }

  lemma OneMoreUnfinished(jobs: map<nat, Job>, id: nat, job: Job, k: nat)
    requires id !in jobs
    ensures |Unfinished(jobs[id := job], k)| <= |Unfinished(jobs, k)| + 1
  {
    SmallerSet(Unfinished(jobs[id := job], k), Unfinished(jobs, k) + {id});
  }

  /** How many steps of the server and of jobs are left at most before the round ends and no job is left. */
  ghost function Left(s: State): nat {
    4 * RoundLeft(s) + JobWork(s.jobs)
  }

  ghost predicate GoesOn(k: Sockets, s: State, s': State) {
    RoundStep(k, s, s') || JobStep(s, s')
  }

  lemma GoingOnDecreases(k: Sockets, s: State, s': State)
    requires Inv(k, s) && GoesOn(k, s, s')
    ensures Inv(k, s') && Left(s') < Left(s)
  {
    NextInv(k, s, s');
    if RoundStep(k, s, s') {
      RoundGoesOn(k, s, s');
    } else {
      var id :| JobActs(s, s', id);
      JobActsAlone(s, s', id);
      JobWorkDrops(k, s, s', id);
    }
  }

  /** From a reachable state to the end of the round, with the steps of jobs in between. */
  ghost predicate RoundRun(k: Sockets, r: seq<State>) {
    r != [] && Inv(k, r[0]) && forall i {:trigger r[i]} :: 0 < i < |r| ==> GoesOn(k, r[i - 1], r[i])
  }

  /** Rounds end, and jobs end. */
  lemma {:induction false} RoundEnds(k: Sockets, r: seq<State>, i: nat)
    requires RoundRun(k, r) && i < |r|
    ensures Inv(k, r[i]) && Left(r[i]) + i <= Left(r[0])
  {
    if i > 0 {
      RoundEnds(k, r, i - 1);
      assert GoesOn(k, r[i - 1], r[i]);
      GoingOnDecreases(k, r[i - 1], r[i]);
    }
  }

  /** Inside a round, and while there are jobs, something can be done. */
  lemma SomethingGoesOn(k: Sockets, s: State)
    requires Inv(k, s) && (s.server != Closing || s.jobs != map[])
    ensures exists s' :: GoesOn(k, s, s')
  {
    if s.server != Closing {
      var s' := ServerCanStep(k, s);
      assert RoundStep(k, s, s');
      assert GoesOn(k, s, s');
    } else {
      var id :| id in s.jobs;
      var s' := JobCanAct(k, s, id, true);
      assert JobStep(s, s');
      assert GoesOn(k, s, s');
    }
  }

  /** When a round has ended and no job can go on, no job is left and every client is waited for or to
      be closed; it is waited for if its last callback returned true and its next job was not refused. */
  lemma RestMeansDone(k: Sockets, s: State)
    requires Inv(k, s) && forall s' :: !GoesOn(k, s, s')
    ensures s.server == Closing && s.jobs == map[]
    ensures forall fd :: fd in s.clients ==> fd in s.pending || fd in s.pendingClose
    ensures forall fd :: fd in s.clients && AnsweredTrue(s, fd) ==> fd in s.pending
  {
    if s.server != Closing || s.jobs != map[] { SomethingGoesOn(k, s); }
    forall fd | fd in s.clients && AnsweredTrue(s, fd) ensures fd in s.pending { AnswersKeepAlive(k, s, fd); }
  }

  /** The last thing done about a client was a callback that returned true. */
  ghost predicate AnsweredTrue(s: State, fd: Fd) {
    && fd in s.open && s.open[fd] in s.logs
    && var log := s.logs[s.open[fd]];
    log != [] && log[|log| - 1] in {NewClient(true), SomeData(true)}
  }

  lemma AnswersKeepAlive(k: Sockets, s: State, fd: Fd)
    requires Inv(k, s) && fd in s.clients && AnsweredTrue(s, fd)
    ensures fd !in s.pendingClose
  {
    OpenIsUnbroken(k, s, fd);
  }

  // ----- what a round does -----

  /** What has been done about the connection of a descriptor. */
  ghost predicate IsLogged(s: State, s': State, fd: Fd, events: seq<Event>) {
    && fd in s.open && s.open[fd] in s.logs && s.open[fd] in s'.logs
    && s'.logs[s.open[fd]] == s.logs[s.open[fd]] + events
  }

  /** Every client that is to be closed is closed before the next select, which looks at all others that
      are waited for. */
  lemma ClosesAll(k: Sockets, s: State, s': State)
    requires Inv(k, s) && s.server == Closing && ServerStep(k, s, s')
    ensures s'.clients == s.clients - s.pendingClose && s'.open == s.open - s.pendingClose && s'.pendingClose == {}
    ensures s'.pending == s.pending && s'.server == Selecting(s.pending)
    ensures forall fd :: fd in s.pendingClose ==> IsLogged(s, s', fd, [Close])
    ensures forall fd :: fd in s'.open ==> IsLogged(s, s', fd, [])
  {
    var m :| CloseAndCopy(k, s, s', m);
    assert s.pending - s.pendingClose == s.pending;
    forall fd | fd in s.pendingClose ensures IsLogged(s, s', fd, [Close]) {
      assert Closes(s, s.open[fd]);
    }
    forall fd | fd in s'.open ensures IsLogged(s, s', fd, []) {
      forall f | f in s.pendingClose && f in s.open ensures s.open[f] != s.open[fd] { Apart(s, f, fd); }
    }
  }

  lemma Apart(s: State, f: Fd, fd: Fd)
    requires Logged(s) && f in s.open && fd in s.open && f != fd
    ensures s.open[f] != s.open[fd]
  {
    assert !SameSocket(s.open, f, fd);
  }

  /** A job is made for a client, or it is to be closed because none can be queued. */
  ghost predicate Served(s: State, s': State, fd: Fd, stage: Stage) {
    || (exists id :: id !in s.jobs && id in s'.jobs && s'.jobs[id] == Job(fd, stage))
    || (fd in s.open && s.open[fd] in s.logs && fd in s'.pendingClose && s'.logs == Log(s, fd, QueueFailed))
  }

  lemma AcceptedIsServed(k: Sockets, s: State, s': State)
    requires Inv(k, s) && s.server.QueueingNew? && ServerStep(k, s, s')
    ensures Served(s, s', s.server.fd, CallNew)
  {
    if id :| QueueNew(k, s, s', id) { assert s'.jobs[id] == Job(s.server.fd, CallNew); }
  }

  /** The server still has to look at this client in this round. */
  ghost predicate ToVisit(s: State, fd: Fd) {
    match s.server
    case Accepting(_) => fd in s.clients
    case QueueingNew(_, _) => fd in s.clients
    case Visiting(_, todo) => fd in todo
    case QueueingData(_, todo, f) => fd in todo || fd == f
    case _ => false
  }

  ghost predicate InRound(s: State, ready: set<Fd>) {
    (s.server.Accepting? || s.server.QueueingNew? || s.server.Visiting? || s.server.QueueingData?) && s.server.ready == ready
  }

  lemma JobsLeaveRound(s: State, s': State, ready: set<Fd>, fd: Fd)
    requires JobStep(s, s') && InRound(s, ready)
    ensures InRound(s', ready) && (ToVisit(s', fd) <==> ToVisit(s, fd))
  {
    var id :| JobActs(s, s', id);
    JobActsAlone(s, s', id);
  }

  lemma ServerStaysInRound(k: Sockets, s: State, s': State, ready: set<Fd>)
    requires ServerStep(k, s, s') && InRound(s, ready) && s'.server != Closing
    ensures InRound(s', ready)
  {}

  lemma DataIsServed(k: Sockets, s: State, s': State)
    requires Inv(k, s) && s.server.QueueingData? && ServerStep(k, s, s')
    ensures Served(s, s', s.server.fd, CallData)
  {
    if id :| QueueData(k, s, s', id) { assert s'.jobs[id] == Job(s.server.fd, CallData); }
  }

  /** The way to the visits. */
  lemma StartsVisits(k: Sockets, s: State, s': State, fd: Fd)
    requires ServerStep(k, s, s') && (s.server.Accepting? || s.server.QueueingNew?) && fd in s.clients
    ensures ToVisit(s', fd)
  {}

  /** A visit to another client, or to this one. */
  lemma StillToVisit(k: Sockets, s: State, s': State, ready: set<Fd>, fd: Fd)
    requires ServerStep(k, s, s') && InRound(s, ready) && fd in ready && ToVisit(s, fd)
    requires s.server.Visiting? || (s.server.QueueingData? && s.server.fd != fd)
    ensures ToVisit(s', fd)
  {}

  lemma VisitStep(k: Sockets, s: State, s': State, ready: set<Fd>, fd: Fd)
    requires Inv(k, s) && Next(k, s, s') && InRound(s, ready) && fd in ready && ToVisit(s, fd) && s'.server != Closing
    ensures InRound(s', ready) && (ToVisit(s', fd) || Served(s, s', fd, CallData))
  {
    if JobStep(s, s') {
      JobsLeaveRound(s, s', ready, fd);
    } else {
      ServerStaysInRound(k, s, s', ready);
      if s.server.Accepting? || s.server.QueueingNew? {
        StartsVisits(k, s, s', fd);
      } else if s.server.QueueingData? && s.server.fd == fd {
        DataIsServed(k, s, s');
      } else {
        StillToVisit(k, s, s', ready, fd);
      }
    }
  }

  lemma StaysInRound(k: Sockets, s: State, s': State, ready: set<Fd>)
    requires Next(k, s, s') && InRound(s, ready) && s'.server != Closing
    ensures InRound(s', ready)
  {
    if JobStep(s, s') { JobsLeaveRound(s, s', ready, 0); } else { ServerStaysInRound(k, s, s', ready); }
  }

  ghost predicate Stepped(k: Sockets, r: seq<State>, n: nat) {
    n + 1 < |r| && Inv(k, r[n]) && Next(k, r[n], r[n + 1])
  }

  ghost predicate Steps(k: Sockets, r: seq<State>, i: nat, j: nat) {
    j < |r| && forall n: nat :: i <= n < j ==> Stepped(k, r, n)
  }

  lemma StepsBefore(k: Sockets, r: seq<State>, i: nat, j: nat)
    requires Steps(k, r, i, j) && j > 0
    ensures Steps(k, r, i, j - 1)
  {}

  lemma RunSteps(k: Sockets, r: seq<State>, i: nat, j: nat)
    requires Run(k, r) && j < |r|
    ensures Steps(k, r, i, j)
  {
    forall n: nat | i <= n < j ensures Stepped(k, r, n) {
      RunInv(k, r, n);
      assert Next(k, r[n + 1 - 1], r[n + 1]);
    }
  }

  /** Up to j the client is still to be visited, or it has been served by step m. */
  ghost predicate Handled(r: seq<State>, i: nat, j: nat, m: nat, fd: Fd)
    requires j < |r|
  {
    (m == j && ToVisit(r[j], fd)) || (i < m <= j && Served(r[m - 1], r[m], fd, CallData))
  }

  lemma HandledLater(k: Sockets, r: seq<State>, i: nat, j: nat, m: nat, fd: Fd, ready: set<Fd>) returns (m': nat)
    requires i < j < |r| && Handled(r, i, j - 1, m, fd) && fd in ready
    requires Steps(k, r, i, j) && InRound(r[j - 1], ready) && r[j].server != Closing
    ensures Handled(r, i, j, m', fd) && InRound(r[j], ready)
  {
    assert Stepped(k, r, j - 1);
    m' := m;
    StaysInRound(k, r[j - 1], r[j], ready);
    if m == j - 1 && ToVisit(r[j - 1], fd) {
      VisitStep(k, r[j - 1], r[j], ready, fd);
      m' := j;
    }
  }

  /** Within one round, a client that select has reported is still to be visited, or has been served. */
  lemma {:induction false} VisitsAll(k: Sockets, r: seq<State>, i: nat, j: nat, fd: Fd) returns (m: nat)
    requires Steps(k, r, i, j) && i <= j
    requires r[i].server.Accepting? && fd in r[i].server.ready && fd in r[i].clients
    requires forall n :: i <= n <= j ==> r[n].server != Closing
    ensures InRound(r[j], r[i].server.ready) && Handled(r, i, j, m, fd)
    decreases j
  {
    if i == j {
      m := j;
    } else {
      StepsBefore(k, r, i, j);
      m := VisitsAll(k, r, i, j - 1, fd);
      m := HandledLater(k, r, i, j, m, fd, r[i].server.ready);
    }
  }

  lemma VisitsAreDone(k: Sockets, s: State, s': State, ready: set<Fd>, fd: Fd)
    requires Next(k, s, s') && InRound(s, ready) && s'.server == Closing
    ensures !ToVisit(s, fd)
  {
    if JobStep(s, s') { JobsLeaveRound(s, s', ready, fd); }
  }

  /** When a round ends, the server has made a job for every client that select had reported, or is to
      close it. */
  lemma ReadyAreServed(k: Sockets, r: seq<State>, i: nat, j: nat, fd: Fd)
    requires Run(k, r) && i <= j && j + 1 < |r|
    requires r[i].server.Accepting? && fd in r[i].server.ready && fd in r[i].clients
    requires (forall n :: i <= n <= j ==> r[n].server != Closing) && r[j + 1].server == Closing
    ensures exists m :: i < m <= j && Served(r[m - 1], r[m], fd, CallData)
  {
    RunSteps(k, r, i, j + 1);
    StepsBefore(k, r, i, j + 1);
    var m := VisitsAll(k, r, i, j, fd);
    assert Stepped(k, r, j);
    VisitsAreDone(k, r[j], r[j + 1], r[i].server.ready, fd);
  }
}
