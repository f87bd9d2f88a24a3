/** The socket service of src/std_socket_service.cpp as interleaved steps of the server's loop and of
    the jobs that its thread pool runs. Each section under the service's mutex is one step. The
    kernel gives out descriptors that are not open, so closed ones are used again. */
module SocketService {
  import opened Options

  type Fd = nat

  /** What is done about one connection, in its order. */
  datatype Event = NewClient(ok: bool) | SomeData(more: bool) | DelClient | QueueFailed | Close

  /** Where a connection is in its life; Broken is the state that is never reached. */
  datatype Phase = Fresh | Live | Rejected | Ending | Deleted | Refused | Closed | Broken

  function After(p: Phase, e: Event): Phase {
    match (p, e)
    case (Fresh, NewClient(ok)) => if ok then Live else Rejected
    case (Live, SomeData(more)) => if more then Live else Ending
    case (Ending, DelClient) => Deleted
    case (Fresh, QueueFailed) => Refused
    case (Live, QueueFailed) => Refused
    case (Deleted, Close) => Closed
    case (Rejected, Close) => Closed
    case (Refused, Close) => Closed
    case _ => Broken
  }

  function PhaseOf(log: seq<Event>): Phase {
    if log == [] then Fresh else After(PhaseOf(log[..|log| - 1]), log[|log| - 1])
  }

  /** Where a job is: the callback that it is about to make, or the section under the mutex after it. */
  datatype Stage = CallNew | Announce | GiveUp | CallData | Return | CallDel

  datatype Job = Job(fd: Fd, stage: Stage)

  /** Where the server is in its loop; ready is what select has left of rset. */
  datatype Server =
    | Closing                                  // before process_closed
    | Selecting(rset: set<Fd>)                 // pending has been copied; in select
    | Accepting(ready: set<Fd>)                // process_sockets, after the drain
    | QueueingNew(ready: set<Fd>, fd: Fd)      // before queue_job for an accepted socket
    | Visiting(ready: set<Fd>, todo: set<Fd>)  // in the loop over m_clients
    | QueueingData(ready: set<Fd>, todo: set<Fd>, fd: Fd)

  type Conn = nat

  datatype State = State(server: Server, clients: set<Fd>, pending: set<Fd>, pendingClose: set<Fd>, maxFd: nat, wakeups: nat,
                         jobs: map<nat, Job>, open: map<Fd, Conn>, logs: map<Conn, seq<Event>>)

  /** The listening socket and the reading end of the wakeup pipe. */
  datatype Sockets = Sockets(listen: Fd, ctl: Fd)

  function Log(s: State, fd: Fd, e: Event): map<Conn, seq<Event>>
    requires fd in s.open && s.open[fd] in s.logs
  {
    s.logs[s.open[fd] := s.logs[s.open[fd]] + [e]]
  }

  function Max(a: nat, b: nat): nat {
    if a < b then b else a
  }

  ghost predicate Init(k: Sockets, s: State) {
    && k.listen != k.ctl
    && s.server == Closing && s.clients == {} && s.pending == {k.listen, k.ctl} && s.pendingClose == {}
    && s.maxFd == Max(k.listen, k.ctl) && s.jobs == map[] && s.open == map[] && s.logs == map[]
  }

  // ----- steps of the server -----

  /** m is the greatest descriptor that setup_max_fd finds. */
  ghost predicate IsMaxFd(k: Sockets, clients: set<Fd>, m: nat) {
    (m == k.listen || m == k.ctl || m in clients) && m >= k.listen && m >= k.ctl && forall fd :: fd in clients ==> fd <= m
  }

  ghost predicate Closes(s: State, c: Conn) {
    exists fd :: fd in s.pendingClose && fd in s.open && s.open[fd] == c
  }

  ghost function ClosedLogs(s: State): map<Conn, seq<Event>> {
    map c | c in s.logs :: if Closes(s, c) then s.logs[c] + [Close] else s.logs[c]
  }

  /** process_closed, and the copy of pending */
  ghost predicate CloseAndCopy(k: Sockets, s: State, s': State, m: nat) {
    && s.server == Closing && (forall fd :: fd in s.pendingClose ==> fd in s.open && s.open[fd] in s.logs)
    && (if s.pendingClose == {} then m == s.maxFd else IsMaxFd(k, s.clients - s.pendingClose, m))
    && s' == s.(server := Selecting(s.pending - s.pendingClose), clients := s.clients - s.pendingClose, pending := s.pending - s.pendingClose,
                pendingClose := {}, maxFd := m, open := s.open - s.pendingClose,
                logs := ClosedLogs(s))
  }

  /** select reports an error: what is in rset, up to max_fd, and not open is to be closed. */
  ghost predicate SelectFails(k: Sockets, s: State, s': State) {
    && s.server.Selecting?
    && s' == s.(server := Closing, pendingClose := s.pendingClose + set fd | fd in s.server.rset && fd <= s.maxFd && fd !in s.open && fd != k.listen && fd != k.ctl)
  }

  ghost predicate SelectTimesOut(k: Sockets, s: State, s': State) {
    s.server.Selecting? && s.wakeups == 0 && s' == s.(server := Closing)
  }

  /** select returns some of the descriptors up to max_fd, the pipe among them if it can be read; one wakeup is read. */
  ghost predicate SelectReturns(k: Sockets, s: State, s': State, ready: set<Fd>) {
    && s.server.Selecting? && ready != {} && ready <= s.server.rset && (forall fd :: fd in ready ==> fd <= s.maxFd)
    && (k.ctl in ready <==> s.wakeups > 0)
    && s' == s.(server := Accepting(ready), wakeups := if k.ctl in ready then s.wakeups - 1 else s.wakeups)
  }

  /** accept fails, or nothing is to be accepted. */
  ghost predicate NoAccept(k: Sockets, s: State, s': State) {
    s.server.Accepting? && s' == s.(server := Visiting(s.server.ready, s.clients))
  }

  ghost predicate Accept(k: Sockets, s: State, s': State, fd: Fd, conn: Conn) {
    && s.server.Accepting? && k.listen in s.server.ready
    && fd !in s.open && fd != k.listen && fd != k.ctl && conn !in s.logs
    && s' == s.(server := QueueingNew(s.server.ready, fd), clients := s.clients + {fd}, open := s.open[fd := conn], logs := s.logs[conn := []])
  }

  /** queue_job for a new socket, or the close that follows its failure. */
  ghost predicate QueueNew(k: Sockets, s: State, s': State, id: nat) {
    && s.server.QueueingNew? && id !in s.jobs
    && var fd := s.server.fd;
    && s' == s.(server := Visiting(s.server.ready, s.clients), jobs := s.jobs[id := Job(fd, CallNew)])
  }

  ghost predicate QueueNewFails(k: Sockets, s: State, s': State) {
    && s.server.QueueingNew?
    && var fd := s.server.fd;
    && fd in s.open && s.open[fd] in s.logs
    && s' == s.(server := Visiting(s.server.ready, s.clients), pendingClose := s.pendingClose + {fd}, logs := Log(s, fd, QueueFailed))
  }

  /** The next client in m_clients: nothing to read, or marked as busy. */
  ghost predicate Visit(k: Sockets, s: State, s': State, fd: Fd) {
    && s.server.Visiting? && fd in s.server.todo
    && var ready, todo := s.server.ready, s.server.todo - {fd};
    && s' == if fd in ready then s.(server := QueueingData(ready, todo, fd), pending := s.pending - {fd})
             else s.(server := Visiting(ready, todo))
  }

  ghost predicate EndVisits(k: Sockets, s: State, s': State) {
    s.server.Visiting? && s.server.todo == {} && s' == s.(server := Closing)
  }

  ghost predicate QueueData(k: Sockets, s: State, s': State, id: nat) {
    && s.server.QueueingData? && id !in s.jobs
    && s' == s.(server := Visiting(s.server.ready, s.server.todo), jobs := s.jobs[id := Job(s.server.fd, CallData)])
  }

  ghost predicate QueueDataFails(k: Sockets, s: State, s': State) {
    && s.server.QueueingData?
    && var fd := s.server.fd;
    && fd in s.open && s.open[fd] in s.logs
    && s' == s.(server := Visiting(s.server.ready, s.server.todo), pendingClose := s.pendingClose + {fd}, logs := Log(s, fd, QueueFailed))
  }

  ghost predicate ServerStep(k: Sockets, s: State, s': State) {
    || (exists m :: CloseAndCopy(k, s, s', m)) || SelectFails(k, s, s') || SelectTimesOut(k, s, s')
    || (exists ready :: SelectReturns(k, s, s', ready)) || NoAccept(k, s, s') || (exists fd, conn :: Accept(k, s, s', fd, conn))
    || (exists id :: QueueNew(k, s, s', id)) || QueueNewFails(k, s, s')
    || (exists fd :: Visit(k, s, s', fd)) || EndVisits(k, s, s')
    || (exists id :: QueueData(k, s, s', id)) || QueueDataFails(k, s, s')
  }

  // ----- steps of a job -----

  function Goto(s: State, id: nat, stage: Stage): map<nat, Job>
    requires id in s.jobs
  {
    s.jobs[id := s.jobs[id].(stage := stage)]
  }

  /** The callback that a job is about to make, and where the job goes when it returns ok. */
  function Called(stage: Stage, ok: bool): Option<(Event, Stage)> {
    match stage
    case CallNew => Some((NewClient(ok), if ok then Announce else GiveUp))
    case CallData => Some((SomeData(ok), if ok then Return else CallDel))
    case CallDel => Some((DelClient, GiveUp))
    case _ => None
  }

  /** A callback returns ok. */
  ghost predicate CallBack(s: State, s': State, id: nat, ok: bool) {
    && id in s.jobs && s.jobs[id].fd in s.open && s.open[s.jobs[id].fd] in s.logs
    && match Called(s.jobs[id].stage, ok)
       case Some((e, stage)) => s' == s.(jobs := Goto(s, id, stage), logs := Log(s, s.jobs[id].fd, e))
       case None => false
  }

  /** new_conn and returned after new_client, or returned after some_data: each under the mutex. */
  ghost predicate GiveBack(s: State, s': State, id: nat) {
    && id in s.jobs && (s.jobs[id].stage == Announce || s.jobs[id].stage == Return)
    && var fd := s.jobs[id].fd;
    && var m, w := if s.jobs[id].stage == Announce then Max(fd, s.maxFd) else s.maxFd, if s.jobs[id].stage == Announce then 1 else 0;
    && s' == s.(jobs := s.jobs - {id}, maxFd := m,
                pending := if fd in s.clients then s.pending + {fd} else s.pending,
                wakeups := s.wakeups + w + if fd in s.clients then 1 else 0)
  }

  /** pend_close */
  ghost predicate PendClose(s: State, s': State, id: nat) {
    id in s.jobs && s.jobs[id].stage == GiveUp && s' == s.(jobs := s.jobs - {id}, pendingClose := s.pendingClose + {s.jobs[id].fd})
  }

  ghost predicate JobActs(s: State, s': State, id: nat) {
    (exists ok :: CallBack(s, s', id, ok)) || GiveBack(s, s', id) || PendClose(s, s', id)
  }

  ghost predicate JobStep(s: State, s': State) {
    exists id :: JobActs(s, s', id)
  }

  ghost predicate Next(k: Sockets, s: State, s': State) {
    ServerStep(k, s, s') || JobStep(s, s')
  }

  ghost predicate Run(k: Sockets, r: seq<State>) {
    r != [] && Init(k, r[0]) && forall i {:trigger r[i]} :: 0 < i < |r| ==> Next(k, r[i - 1], r[i])
  }

  // ----- the invariant -----

  ghost predicate Held(s: State, fd: Fd) {
    (s.server.QueueingNew? || s.server.QueueingData?) && s.server.fd == fd
  }

  /** A descriptor is in one place only: waited for, to be closed, in the hands of the server, or in one job. */
  ghost predicate Places(k: Sockets, s: State) {
    && s.open.Keys == s.clients && k.listen !in s.clients && k.ctl !in s.clients
    && k.listen in s.pending && k.ctl in s.pending && s.pending <= s.clients + {k.listen, k.ctl}
    && s.pendingClose <= s.clients && s.pending !! s.pendingClose
    && (forall fd :: Held(s, fd) ==> fd in s.clients && fd !in s.pending && fd !in s.pendingClose)
    && (forall id :: id in s.jobs ==> JobPlace(s, s.jobs[id].fd))
    && OneEach(s.jobs)
  }

  ghost predicate Twins(jobs: map<nat, Job>, i: nat, j: nat) {
    i in jobs && j in jobs && i != j && jobs[i].fd == jobs[j].fd
  }

  ghost predicate OneEach(jobs: map<nat, Job>) {
    forall i, j :: !Twins(jobs, i, j)
  }

  ghost predicate SameSocket(open: map<Fd, Conn>, fd: Fd, fd': Fd) {
    fd in open && fd' in open && fd != fd' && open[fd] == open[fd']
  }

  ghost predicate JobPlace(s: State, fd: Fd) {
    fd in s.clients && fd !in s.pending && fd !in s.pendingClose && !Held(s, fd)
  }

  /** What the server goes by was true when it was copied and still is. */
  ghost predicate Snapshot(k: Sockets, s: State) {
    match s.server
    case Closing => true
    case Selecting(rset) => k.listen in rset && k.ctl in rset && rset <= s.pending && (s.pending <= rset || s.wakeups > 0)
    case Accepting(ready) => ready <= s.pending
    case QueueingNew(ready, fd) => ready <= s.pending
    case Visiting(ready, todo) => todo <= s.clients && ready * todo <= s.pending
    case QueueingData(ready, todo, fd) => todo <= s.clients && ready * todo <= s.pending && fd !in todo
  }

  ghost predicate Logged(s: State) {
    && (forall fd :: fd in s.open ==> s.open[fd] in s.logs)
    && (forall fd, fd' :: !SameSocket(s.open, fd, fd'))
    && forall c :: c in s.logs ==> PhaseOf(s.logs[c]) == Closed || IsOpen(s, c)
  }

  ghost predicate IsOpen(s: State, c: Conn) {
    exists fd :: fd in s.open && s.open[fd] == c
  }

  /** The point of its life at which the connection of a descriptor is. */
  ghost function At(s: State, fd: Fd): Phase {
    if fd in s.open && s.open[fd] in s.logs then PhaseOf(s.logs[s.open[fd]]) else Broken
  }

  predicate Doomed(p: Phase) {
    p == Deleted || p == Rejected || p == Refused
  }

  /** What has happened before a job is at a stage. */
  predicate Suits(stage: Stage, p: Phase) {
    match stage
    case CallNew => p == Fresh
    case Announce => p == Live
    case GiveUp => p == Deleted || p == Rejected
    case CallData => p == Live
    case Return => p == Live
    case CallDel => p == Ending
  }

  /** Each connection is at the point of its life that its place says. */
  ghost predicate Phases(s: State) {
    && (forall fd :: fd in s.clients && fd in s.pending ==> At(s, fd) == Live)
    && (forall fd :: fd in s.pendingClose ==> Doomed(At(s, fd)))
    && (s.server.QueueingNew? ==> At(s, s.server.fd) == Fresh)
    && (s.server.QueueingData? ==> At(s, s.server.fd) == Live)
    && (forall id :: id in s.jobs ==> Suits(s.jobs[id].stage, At(s, s.jobs[id].fd)))
  }

  /** select looks at every descriptor that is waited for, now or after a job. */
  ghost predicate Covered(s: State) {
    && (forall fd :: fd in s.pending ==> fd <= s.maxFd)
    && (s.server.QueueingData? ==> s.server.fd <= s.maxFd)
    && forall id :: id in s.jobs && (s.jobs[id].stage == CallData || s.jobs[id].stage == Return) ==> s.jobs[id].fd <= s.maxFd
  }

  ghost predicate HasJob(s: State, fd: Fd) {
    exists id :: id in s.jobs && s.jobs[id].fd == fd
  }

  /** No client is lost. */
  ghost predicate Placed(s: State) {
    forall fd :: fd in s.clients ==> fd in s.pending || fd in s.pendingClose || Held(s, fd) || HasJob(s, fd)
  }

  ghost predicate Core(k: Sockets, s: State) {
    Places(k, s) && Snapshot(k, s) && Covered(s)
  }

  ghost predicate History(s: State) {
    Logged(s) && Phases(s)
  }

  ghost predicate Inv(k: Sockets, s: State) {
    Core(k, s) && History(s) && Placed(s)
  }

  lemma PhaseMore(log: seq<Event>, e: Event)
    ensures PhaseOf(log + [e]) == After(PhaseOf(log), e)
  {
    assert (log + [e])[..|log|] == log;
  }

  lemma InitInv(k: Sockets, s: State)
    requires Init(k, s)
    ensures Inv(k, s)
  {}

  // ----- every step keeps it -----

  lemma OneEachPut(jobs: map<nat, Job>, id: nat, job: Job)
    requires OneEach(jobs) && forall i :: i in jobs && i != id ==> jobs[i].fd != job.fd
    ensures OneEach(jobs[id := job])
  {
    var more := jobs[id := job];
    forall i, j ensures !Twins(more, i, j) {
      assert !Twins(jobs, i, j);
    }
  }

  lemma OneEachGoto(s: State, id: nat, stage: Stage)
    requires OneEach(s.jobs) && id in s.jobs
    ensures OneEach(Goto(s, id, stage))
  {
    var moved := Goto(s, id, stage);
    forall i, j ensures !Twins(moved, i, j) {
      assert !Twins(s.jobs, i, j);
    }
  }

  lemma OneEachDrop(jobs: map<nat, Job>, id: nat)
    requires OneEach(jobs) && id in jobs
    ensures OneEach(jobs - {id})
    ensures forall i :: i in jobs - {id} ==> jobs[i].fd != jobs[id].fd
  {
    var fewer := jobs - {id};
    forall i, j ensures !Twins(fewer, i, j) {
      assert !Twins(jobs, i, j);
    }
    forall i | i in jobs - {id} ensures jobs[i].fd != jobs[id].fd {
      assert !Twins(jobs, i, id);
    }
  }

  /** Clients stay in their place, but for the one that a step moves. */
  lemma PlacedKept(s: State, s': State, moved: set<Fd>)
    requires Placed(s)
    requires forall fd :: fd in s'.clients && fd !in moved ==>
               && fd in s.clients && (fd in s.pending ==> fd in s'.pending || fd in s'.pendingClose)
               && (fd in s.pendingClose ==> fd in s'.pendingClose) && (Held(s, fd) ==> Held(s', fd))
    requires forall id :: id in s.jobs && s.jobs[id].fd !in moved ==> id in s'.jobs && s'.jobs[id].fd == s.jobs[id].fd
    requires forall fd :: fd in moved && fd in s'.clients ==> fd in s'.pending || fd in s'.pendingClose || Held(s', fd) || HasJob(s', fd)
    ensures Placed(s')
  {
    forall fd | fd in s'.clients && fd !in moved
      ensures fd in s'.pending || fd in s'.pendingClose || Held(s', fd) || HasJob(s', fd)
    {
      if HasJob(s, fd) {
        var id :| id in s.jobs && s.jobs[id].fd == fd;
        assert s'.jobs[id].fd == fd;
      }
    }
  }

  /** An event of one connection leaves the others where they are. */
  lemma LogOne(s: State, s': State, fd: Fd, e: Event)
    requires Logged(s) && fd in s.open && s'.open == s.open && s'.logs == Log(s, fd, e)
    ensures Logged(s')
    ensures At(s', fd) == After(At(s, fd), e)
    ensures forall f :: f != fd ==> At(s', f) == At(s, f)
  {
    PhaseMore(s.logs[s.open[fd]], e);
    StillOpen(s, s', fd);
    forall f | f != fd ensures At(s', f) == At(s, f) {
      assert !SameSocket(s.open, f, fd);
    }
  }

  lemma SameLogs(s: State, s': State)
    requires Logged(s) && s'.open == s.open && s'.logs == s.logs
    ensures Logged(s')
  {
    forall c | c in s'.logs ensures PhaseOf(s'.logs[c]) == Closed || IsOpen(s', c) {
      if IsOpen(s, c) {
        var f :| f in s.open && s.open[f] == c;
        assert s'.open[f] == c;
      }
    }
  }

  lemma StillOpen(s: State, s': State, fd: Fd)
    requires Logged(s) && fd in s.open && s'.open == s.open && s'.logs.Keys == s.logs.Keys
    requires forall c :: c in s.logs && c != s.open[fd] ==> s'.logs[c] == s.logs[c]
    ensures Logged(s')
  {
    forall c | c in s'.logs ensures PhaseOf(s'.logs[c]) == Closed || IsOpen(s', c) {
      if c == s.open[fd] {
        assert s'.open[fd] == c;
      } else if IsOpen(s, c) {
        var f :| f in s.open && s.open[f] == c;
        assert s'.open[f] == c;
      }
    }
  }

  lemma CloseKeepsPlaces(k: Sockets, s: State, s': State, m: nat)
    requires Places(k, s) && CloseAndCopy(k, s, s', m)
    ensures Places(k, s')
  {}

  lemma CloseKeepsCore(k: Sockets, s: State, s': State, m: nat)
    requires Core(k, s) && CloseAndCopy(k, s, s', m)
    ensures Core(k, s')
  {
    CloseKeepsPlaces(k, s, s', m);
  }

  lemma CloseKeepsAt(k: Sockets, s: State, s': State, m: nat)
    requires Logged(s) && CloseAndCopy(k, s, s', m)
    ensures forall fd :: fd in s'.open ==> At(s', fd) == At(s, fd)
  {
    forall fd | fd in s'.open ensures At(s', fd) == At(s, fd) {
      forall f | f in s.pendingClose ensures s.open[f] != s.open[fd] { assert !SameSocket(s.open, f, fd); }
    }
  }

  lemma CloseKeepsLogged(k: Sockets, s: State, s': State, m: nat)
    requires Logged(s) && Phases(s) && CloseAndCopy(k, s, s', m)
    ensures Logged(s')
  {
    forall c | c in s'.logs ensures PhaseOf(s'.logs[c]) == Closed || IsOpen(s', c) {
      if Closes(s, c) {
        PhaseMore(s.logs[c], Close);
      } else if IsOpen(s, c) {
        var fd :| fd in s.open && s.open[fd] == c;
        assert fd in s'.open;
      }
    }
    forall f, g ensures !SameSocket(s'.open, f, g) { assert !SameSocket(s.open, f, g); }
  }

  lemma CloseKeepsHistory(k: Sockets, s: State, s': State, m: nat)
    requires Inv(k, s) && CloseAndCopy(k, s, s', m)
    ensures History(s')
  {
    CloseKeepsAt(k, s, s', m);
    CloseKeepsLogged(k, s, s', m);
    assert forall id :: id in s.jobs ==> JobPlace(s, s.jobs[id].fd);
  }

  lemma CloseKeeps(k: Sockets, s: State, s': State, m: nat)
    requires Inv(k, s) && CloseAndCopy(k, s, s', m)
    ensures Inv(k, s')
  {
    CloseKeepsCore(k, s, s', m);
    CloseKeepsHistory(k, s, s', m);
    PlacedKept(s, s', {});
  }

  /** The server thread goes on without a socket in its hands. */
  ghost predicate GoesOn(s: State, s': State) {
    && s'.clients == s.clients && s'.pending == s.pending && s'.pendingClose == s.pendingClose
    && s'.jobs == s.jobs && s'.open == s.open && s'.logs == s.logs && !s'.server.QueueingNew? && !s'.server.QueueingData?
  }

  lemma GoingOnKeepsPhases(s: State, s': State)
    requires Phases(s) && GoesOn(s, s')
    ensures Phases(s')
  {}

  lemma GoingOnKeepsPlaces(k: Sockets, s: State, s': State)
    requires Places(k, s) && GoesOn(s, s')
    ensures Places(k, s')
  {
    forall id | id in s'.jobs ensures JobPlace(s', s'.jobs[id].fd) { assert JobPlace(s, s.jobs[id].fd); }
  }

  /** Nothing that select waits for is closed behind its back. */
  lemma NothingFails(k: Sockets, s: State, s': State)
    requires Core(k, s) && SelectFails(k, s, s')
    ensures s' == s.(server := Closing)
  {
    assert s'.pendingClose == s.pendingClose;
  }

  lemma SelectGoesOn(k: Sockets, s: State, s': State)
    requires Core(k, s) && (SelectFails(k, s, s') || SelectTimesOut(k, s, s') || exists ready :: SelectReturns(k, s, s', ready))
    ensures GoesOn(s, s')
  {
    if SelectFails(k, s, s') { NothingFails(k, s, s'); }
  }

  lemma SelectKeepsCore(k: Sockets, s: State, s': State)
    requires Inv(k, s) && (SelectFails(k, s, s') || SelectTimesOut(k, s, s') || exists ready :: SelectReturns(k, s, s', ready))
    ensures Core(k, s')
  {
    SelectGoesOn(k, s, s');
    GoingOnKeepsPlaces(k, s, s');
  }

  lemma SelectKeepsHistory(k: Sockets, s: State, s': State)
    requires Inv(k, s) && (SelectFails(k, s, s') || SelectTimesOut(k, s, s') || exists ready :: SelectReturns(k, s, s', ready))
    ensures History(s')
  {
    SelectGoesOn(k, s, s');
    SameLogs(s, s');
    GoingOnKeepsPhases(s, s');
  }

  lemma SelectKeeps(k: Sockets, s: State, s': State)
    requires Inv(k, s) && (SelectFails(k, s, s') || SelectTimesOut(k, s, s') || exists ready :: SelectReturns(k, s, s', ready))
    ensures Inv(k, s')
  {
    SelectKeepsCore(k, s, s');
    SelectKeepsHistory(k, s, s');
    PlacedKept(s, s', {});
  }

  lemma AcceptKeepsPlaces(k: Sockets, s: State, s': State, fd: Fd, conn: Conn)
    requires Places(k, s) && Accept(k, s, s', fd, conn)
    ensures Places(k, s')
  {}

  lemma AcceptKeepsCore(k: Sockets, s: State, s': State, fd: Fd, conn: Conn)
    requires Core(k, s) && Accept(k, s, s', fd, conn)
    ensures Core(k, s')
  {
    AcceptKeepsPlaces(k, s, s', fd, conn);
  }

  lemma AcceptKeepsAt(k: Sockets, s: State, s': State, fd: Fd, conn: Conn)
    requires Logged(s) && Accept(k, s, s', fd, conn)
    ensures At(s', fd) == Fresh && forall f :: f in s.open ==> At(s', f) == At(s, f)
  {}

  lemma AcceptKeepsLogged(k: Sockets, s: State, s': State, fd: Fd, conn: Conn)
    requires Logged(s) && Accept(k, s, s', fd, conn)
    ensures Logged(s')
  {
    forall c | c in s'.logs ensures PhaseOf(s'.logs[c]) == Closed || IsOpen(s', c) {
      if c == conn {
        assert s'.open[fd] == conn;
      } else if IsOpen(s, c) {
        var f :| f in s.open && s.open[f] == c;
        assert s'.open[f] == c;
      }
    }
    forall f, g ensures !SameSocket(s'.open, f, g) { assert !SameSocket(s.open, f, g); }
  }

  lemma AcceptKeepsHistory(k: Sockets, s: State, s': State, fd: Fd, conn: Conn)
    requires Inv(k, s) && Accept(k, s, s', fd, conn)
    ensures History(s')
  {
    AcceptKeepsAt(k, s, s', fd, conn);
    AcceptKeepsLogged(k, s, s', fd, conn);
    assert forall id :: id in s.jobs ==> JobPlace(s, s.jobs[id].fd);
  }

  lemma AcceptKeeps(k: Sockets, s: State, s': State, fd: Fd, conn: Conn)
    requires Inv(k, s) && Accept(k, s, s', fd, conn)
    ensures Inv(k, s')
  {
    AcceptKeepsCore(k, s, s', fd, conn);
    AcceptKeepsHistory(k, s, s', fd, conn);
    assert Held(s', fd);
    PlacedKept(s, s', {fd});
  }

  lemma MoveOnKeepsCore(k: Sockets, s: State, s': State)
    requires Inv(k, s) && (NoAccept(k, s, s') || EndVisits(k, s, s'))
    ensures Core(k, s')
  {
    GoingOnKeepsPlaces(k, s, s');
  }

  lemma MoveOnKeeps(k: Sockets, s: State, s': State)
    requires Inv(k, s) && (NoAccept(k, s, s') || EndVisits(k, s, s'))
    ensures Inv(k, s')
  {
    MoveOnKeepsCore(k, s, s');
    SameLogs(s, s');
    GoingOnKeepsPhases(s, s');
    PlacedKept(s, s', {});
  }

  lemma VisitKeepsPlaces(k: Sockets, s: State, s': State, fd: Fd)
    requires Places(k, s) && Visit(k, s, s', fd) && Snapshot(k, s)
    ensures Places(k, s')
  {}

  lemma VisitKeepsCore(k: Sockets, s: State, s': State, fd: Fd)
    requires Core(k, s) && Visit(k, s, s', fd)
    ensures Core(k, s')
  {
    VisitKeepsPlaces(k, s, s', fd);
    assert fd in s.server.ready ==> fd in s.server.ready * s.server.todo;
  }

  lemma VisitKeepsPlaced(k: Sockets, s: State, s': State, fd: Fd)
    requires Placed(s) && Visit(k, s, s', fd)
    ensures Placed(s')
  {
    assert s'.server.QueueingData? ==> Held(s', fd);
    PlacedKept(s, s', if s'.server.QueueingData? then {fd} else {});
  }

  lemma VisitKeeps(k: Sockets, s: State, s': State, fd: Fd)
    requires Inv(k, s) && Visit(k, s, s', fd)
    ensures Inv(k, s')
  {
    VisitKeepsCore(k, s, s', fd);
    SameLogs(s, s');
    VisitKeepsPlaced(k, s, s', fd);
  }

  lemma QueueKeepsCore(k: Sockets, s: State, s': State, id: nat)
    requires Inv(k, s) && (QueueNew(k, s, s', id) || QueueData(k, s, s', id))
    ensures Core(k, s')
  {
    assert Held(s, s.server.fd);
    forall i | i in s.jobs ensures s.jobs[i].fd != s.server.fd {
      assert JobPlace(s, s.jobs[i].fd);
    }
    OneEachPut(s.jobs, id, s'.jobs[id]);
  }

  lemma QueueKeepsHistory(k: Sockets, s: State, s': State, id: nat)
    requires Inv(k, s) && (QueueNew(k, s, s', id) || QueueData(k, s, s', id))
    ensures History(s')
  {
    SameLogs(s, s');
  }

  lemma QueueKeeps(k: Sockets, s: State, s': State, id: nat)
    requires Inv(k, s) && (QueueNew(k, s, s', id) || QueueData(k, s, s', id))
    ensures Inv(k, s')
  {
    QueueKeepsCore(k, s, s', id);
    QueueKeepsHistory(k, s, s', id);
    assert Held(s, s.server.fd) && s'.jobs[id].fd == s.server.fd;
    PlacedKept(s, s', {s.server.fd});
  }

  lemma QueueFailsKeepsPlaces(k: Sockets, s: State, s': State)
    requires Places(k, s) && (QueueNewFails(k, s, s') || QueueDataFails(k, s, s'))
    ensures Places(k, s')
  {
    assert Held(s, s.server.fd);
  }

  lemma QueueFailsKeepsCore(k: Sockets, s: State, s': State)
    requires Core(k, s) && (QueueNewFails(k, s, s') || QueueDataFails(k, s, s'))
    ensures Core(k, s')
  {
    QueueFailsKeepsPlaces(k, s, s');
  }

  lemma FailureIsDoom(k: Sockets, s: State, s': State, fd: Fd)
    requires Places(k, s) && Phases(s) && Held(s, fd) && s'.jobs == s.jobs
    requires s'.server.Visiting? && s'.clients == s.clients && s'.pending == s.pending && s'.pendingClose == s.pendingClose + {fd}
    requires At(s', fd) == After(At(s, fd), QueueFailed)
    requires forall f :: f != fd ==> At(s', f) == At(s, f)
    ensures Phases(s')
  {
    forall i | i in s'.jobs ensures Suits(s'.jobs[i].stage, At(s', s'.jobs[i].fd)) {
      assert JobPlace(s, s.jobs[i].fd);
    }
  }

  lemma QueueFailsKeepsHistory(k: Sockets, s: State, s': State)
    requires Inv(k, s) && (QueueNewFails(k, s, s') || QueueDataFails(k, s, s'))
    ensures History(s')
  {
    var fd := s.server.fd;
    assert Held(s, fd);
    LogOne(s, s', fd, QueueFailed);
    FailureIsDoom(k, s, s', fd);
  }

  lemma QueueFailsKeeps(k: Sockets, s: State, s': State)
    requires Inv(k, s) && (QueueNewFails(k, s, s') || QueueDataFails(k, s, s'))
    ensures Inv(k, s')
  {
    QueueFailsKeepsCore(k, s, s');
    QueueFailsKeepsHistory(k, s, s');
    assert Held(s, s.server.fd);
    PlacedKept(s, s', {s.server.fd});
  }

  lemma CallBackKeepsCore(k: Sockets, s: State, s': State, id: nat, ok: bool)
    requires Inv(k, s) && CallBack(s, s', id, ok)
    ensures Core(k, s')
  {
    OneEachGoto(s, id, s'.jobs[id].stage);
    assert JobPlace(s, s.jobs[id].fd);
  }

  lemma OthersKeepTheirPhase(k: Sockets, s: State, s': State, id: nat)
    requires Places(k, s) && Phases(s) && id in s.jobs && s'.jobs.Keys == s.jobs.Keys
    requires s'.server == s.server && s'.clients == s.clients && s'.pending == s.pending && s'.pendingClose == s.pendingClose
    requires forall fd :: fd != s.jobs[id].fd ==> At(s', fd) == At(s, fd)
    requires forall i :: i in s.jobs && i != id ==> s'.jobs[i] == s.jobs[i]
    requires Suits(s'.jobs[id].stage, At(s', s'.jobs[id].fd))
    ensures Phases(s')
  {
    assert JobPlace(s, s.jobs[id].fd);
    assert s.server.QueueingNew? || s.server.QueueingData? ==> Held(s, s.server.fd);
    forall i | i in s'.jobs ensures Suits(s'.jobs[i].stage, At(s', s'.jobs[i].fd)) {
      assert !Twins(s.jobs, i, id);
    }
  }

  lemma CallSuits(stage: Stage, p: Phase, ok: bool)
    requires Suits(stage, p) && Called(stage, ok).Some?
    ensures Suits(Called(stage, ok).value.1, After(p, Called(stage, ok).value.0))
  {}

  lemma CallBackKeepsHistory(k: Sockets, s: State, s': State, id: nat, ok: bool)
    requires Inv(k, s) && CallBack(s, s', id, ok)
    ensures History(s')
  {
    LogOne(s, s', s.jobs[id].fd, Called(s.jobs[id].stage, ok).value.0);
    CallSuits(s.jobs[id].stage, At(s, s.jobs[id].fd), ok);
    OthersKeepTheirPhase(k, s, s', id);
  }

  lemma CallBackKeeps(k: Sockets, s: State, s': State, id: nat, ok: bool)
    requires Inv(k, s) && CallBack(s, s', id, ok)
    ensures Inv(k, s')
  {
    CallBackKeepsCore(k, s, s', id, ok);
    CallBackKeepsHistory(k, s, s', id, ok);
    PlacedKept(s, s', {});
  }

  lemma GiveBackKeepsPlaces(k: Sockets, s: State, s': State, id: nat)
    requires Places(k, s) && GiveBack(s, s', id)
    ensures Places(k, s')
  {
    OneEachDrop(s.jobs, id);
    assert JobPlace(s, s.jobs[id].fd);
    forall i | i in s'.jobs ensures JobPlace(s', s'.jobs[i].fd) {
      assert JobPlace(s, s.jobs[i].fd);
    }
  }

  lemma GiveBackKeepsCore(k: Sockets, s: State, s': State, id: nat)
    requires Core(k, s) && GiveBack(s, s', id)
    ensures Core(k, s')
  {
    GiveBackKeepsPlaces(k, s, s', id);
    assert JobPlace(s, s.jobs[id].fd);
  }

  lemma GiveBackKeepsHistory(k: Sockets, s: State, s': State, id: nat)
    requires Inv(k, s) && GiveBack(s, s', id)
    ensures History(s')
  {
    SameLogs(s, s');
  }

  lemma GiveBackKeepsPlaced(s: State, s': State, id: nat)
    requires Placed(s) && GiveBack(s, s', id)
    ensures Placed(s')
  {
    PlacedKept(s, s', {s.jobs[id].fd});
  }

  lemma GiveBackKeeps(k: Sockets, s: State, s': State, id: nat)
    requires Inv(k, s) && GiveBack(s, s', id)
    ensures Inv(k, s')
  {
    GiveBackKeepsCore(k, s, s', id);
    GiveBackKeepsHistory(k, s, s', id);
    GiveBackKeepsPlaced(s, s', id);
  }

  lemma PendCloseKeepsPlaces(k: Sockets, s: State, s': State, id: nat)
    requires Places(k, s) && PendClose(s, s', id)
    ensures Places(k, s')
  {
    OneEachDrop(s.jobs, id);
    assert JobPlace(s, s.jobs[id].fd);
  }

  lemma PendCloseKeepsCore(k: Sockets, s: State, s': State, id: nat)
    requires Core(k, s) && PendClose(s, s', id)
    ensures Core(k, s')
  {
    PendCloseKeepsPlaces(k, s, s', id);
  }

  lemma PendCloseKeepsPhases(s: State, s': State, id: nat)
    requires Phases(s) && PendClose(s, s', id)
    ensures Phases(s')
  {
    assert Suits(s.jobs[id].stage, At(s, s.jobs[id].fd));
  }

  lemma PendCloseKeepsHistory(k: Sockets, s: State, s': State, id: nat)
    requires Inv(k, s) && PendClose(s, s', id)
    ensures History(s')
  {
    SameLogs(s, s');
    PendCloseKeepsPhases(s, s', id);
  }

  lemma PendCloseKeepsPlaced(s: State, s': State, id: nat)
    requires Placed(s) && PendClose(s, s', id)
    ensures Placed(s')
  {
    PlacedKept(s, s', {s.jobs[id].fd});
  }

  lemma PendCloseKeeps(k: Sockets, s: State, s': State, id: nat)
    requires Inv(k, s) && PendClose(s, s', id)
    ensures Inv(k, s')
  {
    PendCloseKeepsCore(k, s, s', id);
    PendCloseKeepsHistory(k, s, s', id);
    PendCloseKeepsPlaced(s, s', id);
  }

  lemma NextInv(k: Sockets, s: State, s': State)
    requires Inv(k, s) && Next(k, s, s')
    ensures Inv(k, s')
  {
    if JobStep(s, s') {
      var id :| JobActs(s, s', id);
      if ok :| CallBack(s, s', id, ok) {
        CallBackKeeps(k, s, s', id, ok);
      } else if GiveBack(s, s', id) {
        GiveBackKeeps(k, s, s', id);
      } else {
        PendCloseKeeps(k, s, s', id);
      }
    } else if m :| CloseAndCopy(k, s, s', m) {
      CloseKeeps(k, s, s', m);
    } else if fd, conn :| Accept(k, s, s', fd, conn) {
      AcceptKeeps(k, s, s', fd, conn);
    } else if id :| QueueNew(k, s, s', id) || QueueData(k, s, s', id) {
      QueueKeeps(k, s, s', id);
    } else if QueueNewFails(k, s, s') || QueueDataFails(k, s, s') {
      QueueFailsKeeps(k, s, s');
    } else if fd :| Visit(k, s, s', fd) {
      VisitKeeps(k, s, s', fd);
    } else if NoAccept(k, s, s') || EndVisits(k, s, s') {
      MoveOnKeeps(k, s, s');
    } else {
      SelectKeeps(k, s, s');
    }
  }

  lemma {:induction false} RunInv(k: Sockets, r: seq<State>, i: nat)
    requires Run(k, r) && i < |r|
    ensures Inv(k, r[i])
  {
    if i == 0 {
      InitInv(k, r[0]);
    } else {
      RunInv(k, r, i - 1);
      assert Next(k, r[i - 1], r[i]);
      NextInv(k, r[i - 1], r[i]);
    }
  }

  // ----- what holds in every run -----

  /** No client ever has two jobs, and one that has a job, or that the server is about to make one for,
      is not waited for. */
  lemma OneJobAtATime(k: Sockets, r: seq<State>, i: nat, a: nat, b: nat)
    requires Run(k, r) && i < |r| && a in r[i].jobs
    ensures r[i].jobs[a].fd in r[i].open && r[i].jobs[a].fd !in r[i].pending
    ensures b in r[i].jobs && r[i].jobs[b].fd == r[i].jobs[a].fd ==> a == b
    ensures r[i].server.QueueingData? ==> r[i].server.fd !in r[i].pending && r[i].server.fd != r[i].jobs[a].fd
  {
    RunInv(k, r, i);
    var s := r[i];
    assert JobPlace(s, s.jobs[a].fd);
    assert !Twins(s.jobs, a, b);
    assert s.server.QueueingData? ==> Held(s, s.server.fd);
  }

  /** An error of select never finds a descriptor to repair: all that are waited for are open. */
  lemma NothingToRepair(k: Sockets, r: seq<State>, i: nat, s': State)
    requires Run(k, r) && i < |r| && SelectFails(k, r[i], s')
    ensures s'.pendingClose == r[i].pendingClose
  {
    RunInv(k, r, i);
  }

  /** While the server is in select, every client that waits for data is in the set that select was
      given and below its limit, or the wakeup pipe can be read. */
  lemma NoClientIsForgotten(k: Sockets, r: seq<State>, i: nat, fd: Fd)
    requires Run(k, r) && i < |r| && r[i].server.Selecting? && fd in r[i].pending
    ensures (fd in r[i].server.rset && fd <= r[i].maxFd) || r[i].wakeups > 0
  {
    RunInv(k, r, i);
  }

  // ----- the life of a connection -----

  function Repeated(e: Event, n: nat): seq<Event> {
    if n == 0 then [] else Repeated(e, n - 1) + [e]
  }

  ghost predicate CallsAre(log: seq<Event>, n: nat, tail: seq<Event>) {
    log == [NewClient(true)] + Repeated(SomeData(true), n) + tail
  }

  /** new_client, some_data as long as it returned true, and then these. */
  ghost predicate Calls(log: seq<Event>, tail: seq<Event>) {
    exists n: nat :: CallsAre(log, n, tail)
  }

  /** All that has been done about one connection so far. A job that cannot be queued ends its life at any
      point at which one is needed. */
  ghost predicate LifeSoFar(log: seq<Event>, p: Phase) {
    match p
    case Fresh => log == []
    case Live => Calls(log, [])
    case Ending => Calls(log, [SomeData(false)])
    case Deleted => Calls(log, [SomeData(false), DelClient])
    case Rejected => log == [NewClient(false)]
    case Refused => log == [QueueFailed] || Calls(log, [QueueFailed])
    case Closed =>
      || log == [NewClient(false), Close] || Calls(log, [SomeData(false), DelClient, Close])
      || log == [QueueFailed, Close] || Calls(log, [QueueFailed, Close])
    case Broken => false
  }

  lemma OneMoreCall(log: seq<Event>, tail: seq<Event>, e: Event)
    requires Calls(log, tail)
    ensures Calls(log + [e], tail + [e])
    ensures tail == [] && e == SomeData(true) ==> Calls(log + [e], [])
  {
    var n: nat :| CallsAre(log, n, tail);
    assert CallsAre(log + [e], n, tail + [e]);
    assert tail == [] && e == SomeData(true) ==> CallsAre(log + [e], n + 1, []);
  }

  lemma LifeGoesOn(log: seq<Event>, p: Phase, e: Event)
    requires LifeSoFar(log, p) && After(p, e) != Broken
    ensures LifeSoFar(log + [e], After(p, e))
  {
    match p
    case Fresh => if e == NewClient(true) { assert CallsAre(log + [e], 0, []); }
    case Live =>
      OneMoreCall(log, [], e);
      assert [] + [e] == [e];
    case Ending =>
      OneMoreCall(log, [SomeData(false)], e);
      assert [SomeData(false)] + [DelClient] == [SomeData(false), DelClient];
    case Deleted =>
      OneMoreCall(log, [SomeData(false), DelClient], e);
      assert [SomeData(false), DelClient] + [Close] == [SomeData(false), DelClient, Close];
    case Refused =>
      if log != [QueueFailed] { OneMoreCall(log, [QueueFailed], e); }
      assert [QueueFailed] + [Close] == [QueueFailed, Close];
    case _ =>
  }

  lemma {:induction false} LogIsLife(log: seq<Event>)
    requires PhaseOf(log) != Broken
    ensures LifeSoFar(log, PhaseOf(log))
    decreases |log|
  {
    if log != [] {
      var init, e := log[..|log| - 1], log[|log| - 1];
      assert log == init + [e];
      LogIsLife(init);
      LifeGoesOn(init, PhaseOf(init), e);
    }
  }

  lemma {:induction false} RepeatedOnly(e: Event, n: nat)
    ensures forall f :: f in Repeated(e, n) ==> f == e
  {
    if n > 0 { RepeatedOnly(e, n - 1); }
  }

  lemma CallsHold(log: seq<Event>, tail: seq<Event>, e: Event)
    requires Calls(log, tail) && e != SomeData(true)
    ensures e in log <==> e == NewClient(true) || e in tail
  {
    var n: nat :| CallsAre(log, n, tail);
    RepeatedOnly(SomeData(true), n);
  }

  /** del_client is called for a closed connection if and only if new_client has accepted it and all of
      its jobs could be queued. */
  lemma ClosedIsDeleted(log: seq<Event>)
    requires PhaseOf(log) == Closed
    ensures DelClient in log <==> NewClient(true) in log && QueueFailed !in log
  {
    LogIsLife(log);
    if tail :| tail in [[SomeData(false), DelClient, Close], [QueueFailed, Close]] && Calls(log, tail) {
      CallsHold(log, tail, DelClient);
      CallsHold(log, tail, NewClient(true));
      CallsHold(log, tail, QueueFailed);
    }
  }

  lemma OpenIsUnbroken(k: Sockets, s: State, fd: Fd)
    requires Inv(k, s) && fd in s.open
    ensures At(s, fd) != Broken && At(s, fd) != Closed
  {
    if HasJob(s, fd) {
      var id :| id in s.jobs && s.jobs[id].fd == fd;
    }
  }

  /** The callbacks of each connection come in the order new_client, some_data again and again until it
      returns false, del_client, close; a client that new_client turns down is closed at once, and so is
      one whose next job cannot be queued. The connections that are not closed are those with an open
      descriptor. */
  lemma ConnectionsAreServed(k: Sockets, r: seq<State>, i: nat, c: Conn)
    requires Run(k, r) && i < |r| && c in r[i].logs
    ensures var log := r[i].logs[c];
            && LifeSoFar(log, PhaseOf(log)) && (PhaseOf(log) != Closed ==> IsOpen(r[i], c))
            && (PhaseOf(log) == Closed ==> (DelClient in log <==> NewClient(true) in log && QueueFailed !in log))
  {
    RunInv(k, r, i);
    var s := r[i];
    if PhaseOf(s.logs[c]) != Closed {
      var fd :| fd in s.open && s.open[fd] == c;
      OpenIsUnbroken(k, s, fd);
    } else {
      ClosedIsDeleted(s.logs[c]);
    }
    LogIsLife(s.logs[c]);
  }

  // ----- a client that is closed without del_client -----

  lemma Extend(k: Sockets, r: seq<State>, s: State)
    requires Run(k, r) && Next(k, r[|r| - 1], s)
    ensures Run(k, r + [s])
  {}

  const EXAMPLE: Sockets := Sockets(3, 4)

  /** A client at descriptor 5 comes and is accepted by new_client. */
  function Arrival(i: nat): State {
    var idle := State(Closing, {}, {3, 4}, {}, 4, 0, map[], map[], map[]);
    var accepted := idle.(server := QueueingNew({3}, 5), clients := {5}, open := map[5 := 0], logs := map[0 := []]);
    match i
    case 0 => idle
    case 1 => idle.(server := Selecting({3, 4}))
    case 2 => idle.(server := Accepting({3}))
    case 3 => accepted
    case 4 => accepted.(server := Visiting({3}, {5}), jobs := map[0 := Job(5, CallNew)])
    case 5 => accepted.(server := Visiting({3}, {5}), jobs := map[0 := Job(5, Announce)], logs := map[0 := [NewClient(true)]])
    case 6 => Waiting(Visiting({3}, {5}), 2)
    case 7 => Waiting(Visiting({3}, {}), 2)
    case _ => Waiting(Closing, 2)
  }

  function Waiting(server: Server, wakeups: nat): State {
    State(server, {5}, {3, 4, 5}, {}, 5, wakeups, map[], map[5 := 0], map[0 := [NewClient(true)]])
  }

  /** It sends data, for which no job can be queued. */
  function Failure(i: nat): State {
    var failed := Waiting(Visiting({4, 5}, {}), 1).(pending := {3, 4}, pendingClose := {5}, logs := map[0 := [NewClient(true), QueueFailed]]);
    match i
    case 0 => Waiting(Selecting({3, 4, 5}), 2)
    case 1 => Waiting(Accepting({4, 5}), 1)
    case 2 => Waiting(Visiting({4, 5}, {5}), 1)
    case 3 => Waiting(QueueingData({4, 5}, {}, 5), 1).(pending := {3, 4})
    case 4 => failed
    case 5 => failed.(server := Closing)
    case _ => State(Selecting({3, 4}), {}, {3, 4}, {}, 4, 1, map[], map[], map[0 := [NewClient(true), QueueFailed, Close]])
  }

  lemma NothingToClose(k: Sockets, s: State)
    requires s.server == Closing && s.pendingClose == {}
    ensures CloseAndCopy(k, s, s.(server := Selecting(s.pending)), s.maxFd)
  {
    assert s.pending - {} == s.pending && s.clients - {} == s.clients && s.open - {} == s.open;
    assert ClosedLogs(s) == s.logs;
  }

  lemma ArrivalSteps(i: nat)
    requires i < 8
    ensures Next(EXAMPLE, Arrival(i), Arrival(i + 1))
  {
    var s, s' := Arrival(i), Arrival(i + 1);
    match i
    case 0 =>
      NothingToClose(EXAMPLE, s);
      assert CloseAndCopy(EXAMPLE, s, s', 4);
    case 1 => assert SelectReturns(EXAMPLE, s, s', {3});
    case 2 => assert Accept(EXAMPLE, s, s', 5, 0);
    case 3 => assert QueueNew(EXAMPLE, s, s', 0);
    case 4 =>
      assert [] + [NewClient(true)] == [NewClient(true)];
      assert Goto(s, 0, Announce) == s'.jobs && Log(s, 5, NewClient(true)) == s'.logs;
      assert CallBack(s, s', 0, true);
      assert JobActs(s, s', 0);
    case 5 =>
      assert GiveBack(s, s', 0);
      assert JobActs(s, s', 0);
    case 6 =>
      assert s.server.todo - {5} == {};
      assert Visit(EXAMPLE, s, s', 5);
    case 7 => assert EndVisits(EXAMPLE, s, s');
  }

  lemma FailureSteps(i: nat)
    requires i < 6
    ensures Next(EXAMPLE, Failure(i), Failure(i + 1))
  {
    var s, s' := Failure(i), Failure(i + 1);
    match i
    case 0 => assert SelectReturns(EXAMPLE, s, s', {4, 5});
    case 1 => assert NoAccept(EXAMPLE, s, s');
    case 2 =>
      assert s.server.todo - {5} == {} && s.pending - {5} == {3, 4};
      assert Visit(EXAMPLE, s, s', 5);
    case 3 =>
      assert [NewClient(true)] + [QueueFailed] == [NewClient(true), QueueFailed];
      assert s.pendingClose + {5} == {5} && Log(s, 5, QueueFailed) == s'.logs;
      assert QueueDataFails(EXAMPLE, s, s');
    case 4 => assert EndVisits(EXAMPLE, s, s');
    case 5 =>
      assert [NewClient(true), QueueFailed] + [Close] == [NewClient(true), QueueFailed, Close];
      assert 5 in s.pendingClose && s.open[5] == 0;
      assert ClosedLogs(s) == s'.logs;
      assert s.clients - s.pendingClose == {} && s.pending - s.pendingClose == {3, 4} && s.open - s.pendingClose == map[];
      assert CloseAndCopy(EXAMPLE, s, s', 4);
  }

  lemma ArrivalThenFailure()
    ensures Next(EXAMPLE, Arrival(8), Failure(0))
  {
    NothingToClose(EXAMPLE, Arrival(8));
    assert CloseAndCopy(EXAMPLE, Arrival(8), Failure(0), 5);
  }

  /** What a run does that goes through f(0), f(1), ... after its end. */
  lemma {:induction false} Along(k: Sockets, before: seq<State>, f: nat -> State, n: nat) returns (r: seq<State>)
    requires Run(k, before + [f(0)]) && forall i: nat :: i < n ==> Next(k, f(i), f(i + 1))
    ensures Run(k, r + [f(n)])
  {
    r := before;
    if n > 0 {
      r := Along(k, before, f, n - 1);
      Extend(k, r + [f(n - 1)], f(n));
      r := r + [f(n - 1)];
    }
  }

  lemma ArrivalRun() returns (r: seq<State>)
    ensures Run(EXAMPLE, r + [Arrival(8)])
  {
    forall i: nat | i < 8 ensures Next(EXAMPLE, Arrival(i), Arrival(i + 1)) { ArrivalSteps(i); }
    r := Along(EXAMPLE, [], Arrival, 8);
  }

  lemma FailureRun() returns (r: seq<State>)
    ensures Run(EXAMPLE, r + [Failure(6)])
  {
    r := ArrivalRun();
    ArrivalThenFailure();
    Extend(EXAMPLE, r + [Arrival(8)], Failure(0));
    forall i: nat | i < 6 ensures Next(EXAMPLE, Failure(i), Failure(i + 1)) { FailureSteps(i); }
    r := Along(EXAMPLE, r + [Arrival(8)], Failure, 6);
  }

  lemma FailedLife()
    ensures PhaseOf([NewClient(true), QueueFailed, Close]) == Closed
  {
    assert [] + [NewClient(true)] == [NewClient(true)] && [NewClient(true)] + [QueueFailed] == [NewClient(true), QueueFailed];
    assert [NewClient(true), QueueFailed] + [Close] == [NewClient(true), QueueFailed, Close];
    PhaseMore([], NewClient(true));
    PhaseMore([NewClient(true)], QueueFailed);
    PhaseMore([NewClient(true), QueueFailed], Close);
  }

  lemma FailedLogs()
    ensures Failure(6).logs == map[0 := [NewClient(true), QueueFailed, Close]]
  {}

  /** A client that new_client has accepted can be closed without a call of del_client. */
  lemma ClosedWithoutDelClient() returns (r: seq<State>)
    ensures Run(EXAMPLE, r) && r[|r| - 1].logs == map[0 := [NewClient(true), QueueFailed, Close]]
    ensures PhaseOf([NewClient(true), QueueFailed, Close]) == Closed
  {
    var before := FailureRun();
    r := before + [Failure(6)];
    FailedLogs();
    FailedLife();
  }
}
