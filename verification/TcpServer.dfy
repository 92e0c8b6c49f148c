/**
 * The hand-over from one TCP client to the next. The accept task, one receive
 * task per client and the stop call change the shared fields under a mutex;
 * each critical section is one step, and so is the return of accept(), which
 * opens a descriptor that is not open at that time. A number may be given out
 * again as soon as it has been closed.
 */
module TcpServer {
  import opened Streams

  const NO_SOCKET := -1
  const GENERATIONS := 0x1_0000_0000

  /** The fields the mutex guards. */
  datatype Shared = Shared(clientSock: int, generation: int, running: bool)

  /** New fields and the descriptors closed on the way. */
  datatype Outcome = Outcome(shared: Shared, closed: seq<int>)

  /** A new client takes the place of the previous one, whose descriptor is closed. */
  function TakeClient(s: Shared, newSock: int): (r: Outcome)
  {
    Outcome(s.(clientSock := newSock, generation := (s.generation + 1) % GENERATIONS),
            if s.clientSock >= 0 then [s.clientSock] else [])
  }

  /** The receive task could not be started. */
  function DropClient(s: Shared, newSock: int): (r: Outcome)
  {
    Outcome(if s.clientSock == newSock then s.(clientSock := NO_SOCKET) else s, [newSock])
  }

  /** A receive task ends. */
  function EndTask(s: Shared, sock: int, gen: int): (r: Outcome)
  {
    Outcome(if s.clientSock == sock && s.generation == gen then s.(clientSock := NO_SOCKET) else s, [sock])
  }

  function Halt(s: Shared): (r: Outcome)
  {
    if !s.running then Outcome(s, [])
    else Outcome(s.(running := false, clientSock := if s.clientSock >= 0 then NO_SOCKET else s.clientSock),
                 if s.clientSock >= 0 then [s.clientSock] else [])
  }

  // ----- runs

  /** A receive task's arguments, and which registered client (counted from 1) it belongs to. */
  datatype Task = Task(sock: int, gen: int, number: nat)

  datatype Event =
    | Accepted(sock: nat)       // accept() returned a new descriptor
    | Registered                // the accept task makes it the client
    | Started                   // its receive task runs
    | StartFailed               // its receive task could not be started
    | Ended(task: Task)         // a receive task cleans up
    | Stopped

  /**
   * The shared fields, the server's open descriptors, those closed so far in
   * order, the sockets of all clients registered so far, the descriptor that
   * accept() returned, the client whose task is being started, and the live
   * receive tasks.
   */
  datatype World = World(shared: Shared, open: set<int>, closed: seq<int>, socks: seq<int>,
                         arriving: Option<nat>, pending: Option<Task>, live: set<Task>, failed: nat, ended: nat)

  const INITIAL := World(Shared(NO_SOCKET, 0, true), {}, [], [], None, None, {}, 0, 0)

  /** The accept task handles one client at a time; accept() gives no open descriptor; only a live task can end. */
  predicate Enabled(w: World, ev: Event)
  {
    match ev
    case Accepted(sock) => w.arriving.None? && w.pending.None? && sock !in w.open
    case Registered => w.arriving.Some?
    case Started => w.pending.Some?
    case StartFailed => w.pending.Some?
    case Ended(t) => t in w.live
    case Stopped => true
  }

  /** What an event does to the shared fields, and what it closes. */
  function Section(w: World, ev: Event): (r: Outcome)
    requires Enabled(w, ev)
  {
    match ev
    case Accepted(_) => Outcome(w.shared, [])
    case Registered => TakeClient(w.shared, w.arriving.value)
    case Started => Outcome(w.shared, [])
    case StartFailed => DropClient(w.shared, w.pending.value.sock)
    case Ended(t) => EndTask(w.shared, t.sock, t.gen)
    case Stopped => Halt(w.shared)
  }

  function Opened(ev: Event): (r: set<int>) { if ev.Accepted? then {ev.sock} else {} }

  function Elements(s: seq<int>): (r: set<int>) { set x | x in s }

  function Act(w: World, ev: Event): (w': World)
    requires Enabled(w, ev)
  {
    var o := Section(w, ev);
    var v := w.(shared := o.shared, open := w.open + Opened(ev) - Elements(o.closed), closed := w.closed + o.closed);
    match ev
    case Accepted(sock) => v.(arriving := Some(sock))
    case Registered =>
      v.(socks := w.socks + [w.arriving.value], arriving := None,
         pending := Some(Task(w.arriving.value, o.shared.generation, |w.socks| + 1)))
    case Started => v.(pending := None, live := w.live + {w.pending.value})
    case StartFailed => v.(pending := None, failed := w.failed + 1)
    case Ended(t) => v.(live := w.live - {t}, ended := w.ended + 1)
    case Stopped => v
  }

  /** One step; an event that cannot happen now changes nothing. */
  function Step(w: World, ev: Event): (w': World)
  {
    if !Enabled(w, ev) then w
    else Act(w, ev)
  }

  function Run(evs: seq<Event>): (w: World)
  {
    if evs == [] then INITIAL else Step(Run(evs[..|evs| - 1]), evs[|evs| - 1])
  }

  /** The world before event `i`. */
  function Before(evs: seq<Event>, i: nat): (w: World)
    requires i <= |evs|
  {
    Run(evs[..i])
  }

  lemma BeforeStep(evs: seq<Event>, i: nat)
    requires i < |evs|
    ensures Before(evs, i + 1) == Step(Before(evs, i), evs[i])
  {
    assert evs[..i + 1][..i] == evs[..i];
  }

  /** Every event can happen when its turn comes. */
  ghost predicate Possible(evs: seq<Event>)
  {
    forall i :: 0 <= i < |evs| ==> Enabled(Before(evs, i), evs[i])
  }

  // ----- the server itself

  class Server {
    var clientSock: int
    var generation: int
    var running: bool
    ghost var closed: seq<int>

    ghost function Abs(): (s: Shared)
      reads this
    {
      Shared(clientSock, generation, running)
    }

    constructor ()
      ensures Abs() == Shared(NO_SOCKET, 0, true) && closed == []
    {
      clientSock, generation, running, closed := NO_SOCKET, 0, true, [];
    }

    method Accept(newSock: int) returns (gen: int)
      modifies this
      ensures Abs() == TakeClient(old(Abs()), newSock).shared && gen == generation
      ensures closed == old(closed) + TakeClient(old(Abs()), newSock).closed
    {
      if clientSock >= 0 {
        closed := closed + [clientSock];
        clientSock := NO_SOCKET;
      }
      clientSock := newSock;
      generation := (generation + 1) % GENERATIONS;
      gen := generation;
    }

    method StartFailed(newSock: int)
      modifies this
      ensures Abs() == DropClient(old(Abs()), newSock).shared
      ensures closed == old(closed) + DropClient(old(Abs()), newSock).closed
    {
      if clientSock == newSock {
        closed := closed + [clientSock];
        clientSock := NO_SOCKET;
      } else {
        closed := closed + [newSock];
      }
    }

    method RxTaskCleanup(sock: int, gen: int)
      modifies this
      ensures Abs() == EndTask(old(Abs()), sock, gen).shared
      ensures closed == old(closed) + EndTask(old(Abs()), sock, gen).closed
    {
      if clientSock == sock && generation == gen {
        closed := closed + [clientSock];
        clientSock := NO_SOCKET;
      } else {
        closed := closed + [sock];
      }
    }

    method Stop()
      modifies this
      ensures Abs() == Halt(old(Abs())).shared
      ensures closed == old(closed) + Halt(old(Abs())).closed
    {
      if !running {
        return;
      }
      running := false;
      if clientSock >= 0 {
        closed := closed + [clientSock];
        clientSock := NO_SOCKET;
      }
    }

    /**
     * Any interleaving of the tasks that can happen, each with its own local
     * variables: the shared fields, the closed descriptors and the live
     * receive tasks are those of the run.
     */
    method Execute(evs: seq<Event>) returns (live: set<Task>)
      requires Abs() == INITIAL.shared && closed == [] && Possible(evs)
      modifies this
      ensures Abs() == Run(evs).shared && closed == Run(evs).closed && live == Run(evs).live
    {
      var arriving: Option<nat>, pending: Option<Task>, registered := None, None, 0;
      live := {};
      for i := 0 to |evs|
        invariant Abs() == Before(evs, i).shared && closed == Before(evs, i).closed
        invariant arriving == Before(evs, i).arriving && pending == Before(evs, i).pending
        invariant live == Before(evs, i).live && registered == |Before(evs, i).socks|
      {
        BeforeStep(evs, i);
        match evs[i] {
          case Accepted(sock) =>
            arriving := Some(sock);
          case Registered =>
            var gen := Accept(arriving.value);
            registered := registered + 1;
            arriving, pending := None, Some(Task(arriving.value, gen, registered));
          case Started =>
            live, pending := live + {pending.value}, None;
          case StartFailed =>
            StartFailed(pending.value.sock);
            pending := None;
          case Ended(t) =>
            RxTaskCleanup(t.sock, t.gen);
            live := live - {t};
          case Stopped =>
            Stop();
        }
      }
      assert evs[..|evs|] == evs;
    }
  }

  // ----- what every interleaving keeps

  ghost predicate TaskOk(w: World, t: Task)
  {
    && 1 <= t.number <= |w.socks|
    && t.sock == w.socks[t.number - 1]
    && t.gen == t.number % GENERATIONS
  }

  ghost predicate Inv(w: World)
  {
    && w.shared.generation == |w.socks| % GENERATIONS
    && (w.shared.clientSock == NO_SOCKET || (w.socks != [] && w.shared.clientSock == w.socks[|w.socks| - 1]))
    && (forall i :: 0 <= i < |w.socks| ==> w.socks[i] >= 0)
    && (w.arriving.None? || w.pending.None?)
    && (forall t :: t in w.live ==> TaskOk(w, t))
    && (w.pending.Some? ==> TaskOk(w, w.pending.value) && w.pending.value.number == |w.socks|)
    && (w.pending.Some? ==> forall t :: t in w.live ==> t.number < |w.socks|)
    && |w.live| + w.failed + w.ended + (if w.pending.Some? then 1 else 0) == |w.socks|
  }

  lemma TasksStayOk(w: World, w': World, sock: nat)
    requires Inv(w) && w'.socks == w.socks + [sock] && w'.live == w.live
    ensures forall t :: t in w'.live ==> TaskOk(w', t) && t.number < |w'.socks|
  {
    forall t | t in w'.live
      ensures TaskOk(w', t)
    {
      assert TaskOk(w, t);
    }
  }

  lemma GenerationSuccessor(n: nat)
    ensures (n % GENERATIONS + 1) % GENERATIONS == (n + 1) % GENERATIONS
  {
  }

  lemma RegisterKeepsInv(w: World)
    requires Inv(w) && w.arriving.Some?
    ensures Inv(Act(w, Registered))
  {
    var w' := Act(w, Registered);
    TasksStayOk(w, w', w.arriving.value);
    GenerationSuccessor(|w.socks|);
    assert TaskOk(w', w'.pending.value);
  }

  lemma StartKeepsInv(w: World)
    requires Inv(w) && w.pending.Some?
    ensures Inv(Act(w, Started))
  {
    var w' := Act(w, Started);
    assert w.pending.value !in w.live;
    assert forall t :: t in w'.live ==> TaskOk(w, t) && TaskOk(w', t);
  }

  lemma StartFailureKeepsInv(w: World)
    requires Inv(w) && w.pending.Some?
    ensures Inv(Act(w, StartFailed))
  {
    var w' := Act(w, StartFailed);
    assert forall t :: t in w'.live ==> TaskOk(w, t) && TaskOk(w', t);
  }

  lemma OtherKeepsInv(w: World, ev: Event)
    requires Inv(w) && Enabled(w, ev) && (ev.Accepted? || ev.Ended? || ev.Stopped?)
    ensures Inv(Act(w, ev))
  {
    var w' := Act(w, ev);
    assert forall u :: u in w'.live ==> TaskOk(w, u) && TaskOk(w', u);
    assert w'.pending.Some? ==> TaskOk(w, w.pending.value) && TaskOk(w', w.pending.value);
  }

  lemma StepKeepsInv(w: World, ev: Event)
    requires Inv(w)
    ensures Inv(Step(w, ev))
  {
    if Enabled(w, ev) {
      match ev
      case Registered => RegisterKeepsInv(w);
      case Started => StartKeepsInv(w);
      case StartFailed => StartFailureKeepsInv(w);
      case Accepted(_) => OtherKeepsInv(w, ev);
      case Ended(_) => OtherKeepsInv(w, ev);
      case Stopped => OtherKeepsInv(w, ev);
    }
  }

  lemma {:induction false} InvHolds(evs: seq<Event>)
    ensures Inv(Run(evs))
  {
    if evs != [] {
      InvHolds(evs[..|evs| - 1]);
      StepKeepsInv(Run(evs[..|evs| - 1]), evs[|evs| - 1]);
    }
  }

  /**
   * In every interleaving, the client socket is -1 or that of the latest
   * registration, whose number is the generation; and every registered client
   * is accounted for by a live receive task, a finished one, a failed start or
   * the one in progress.
   */
  lemma ClientIsLatestAccept(evs: seq<Event>)
    ensures var w := Run(evs);
            && (w.shared.clientSock == NO_SOCKET || (w.socks != [] && w.shared.clientSock == w.socks[|w.socks| - 1]))
            && w.shared.generation == |w.socks| % GENERATIONS
            && |w.live| == |w.socks| - w.failed - w.ended - (if w.pending.Some? then 1 else 0)
  {
    InvHolds(evs);
  }

  lemma SameResidue(a: nat, b: nat)
    requires a <= b
    ensures a % GENERATIONS == b % GENERATIONS <==> (b - a) % GENERATIONS == 0
  {
    var qa, qb := a / GENERATIONS, b / GENERATIONS;
    assert b - a == (qb - qa) * GENERATIONS + (b % GENERATIONS - a % GENERATIONS);
  }

  /** Which descriptor and generation a task and the client have. */
  ghost predicate TaskFacts(w: World, t: Task)
  {
    && TaskOk(w, t) && t.sock >= 0
    && (w.shared.generation == t.gen <==> (|w.socks| - t.number) % GENERATIONS == 0)
  }

  lemma InvGivesTaskFacts(w: World, t: Task)
    requires Inv(w) && t in w.live
    ensures TaskFacts(w, t)
  {
    assert TaskOk(w, t);
    SameResidue(t.number, |w.socks|);
  }

  lemma LiveTaskFacts(evs: seq<Event>, t: Task)
    requires t in Run(evs).live
    ensures TaskFacts(Run(evs), t)
  {
    InvHolds(evs);
    InvGivesTaskFacts(Run(evs), t);
  }

  /**
   * A receive task that ends takes the client away exactly if the client has
   * its descriptor and its generation: for the task of the latest client, or
   * after a multiple of 2^32 clients since its own. So a stale task never does
   * within 2^32 clients, even if its descriptor number was given out again.
   */
  lemma EndedTaskClearsIff(evs: seq<Event>, t: Task)
    requires t in Run(evs).live
    ensures var w := Run(evs);
            && (Step(w, Ended(t)).shared.clientSock != w.shared.clientSock
                <==> w.shared.clientSock == t.sock && (|w.socks| - t.number) % 0x1_0000_0000 == 0)
            && (0 < |w.socks| - t.number < 0x1_0000_0000 ==> Step(w, Ended(t)).shared == w.shared)
  {
    LiveTaskFacts(evs, t);
    var w := Run(evs);
    assert Step(w, Ended(t)).shared == EndTask(w.shared, t.sock, t.gen).shared;
  }

  lemma DropLeavesNoClient(w: World)
    requires Inv(w) && w.pending.Some?
    ensures Step(w, StartFailed).shared.clientSock == NO_SOCKET
  {
    assert TaskOk(w, w.pending.value);
  }

  /** A failed start always leaves no client behind: nobody else can have become the client meanwhile. */
  lemma FailedStartLeavesNoClient(evs: seq<Event>)
    requires Run(evs).pending.Some?
    ensures Step(Run(evs), StartFailed).shared.clientSock == NO_SOCKET
  {
    InvHolds(evs);
    DropLeavesNoClient(Run(evs));
  }

  // ----- descriptors that are given out again

  /** The client's descriptor and the one being handed over are open, and different. */
  ghost predicate SocketsOpen(w: World)
  {
    && (w.shared.clientSock >= 0 ==> w.shared.clientSock in w.open)
    && (w.arriving.Some? ==> w.arriving.value in w.open && w.arriving.value != w.shared.clientSock)
  }

  /** A task ends whose descriptor number meanwhile belongs to a later client, registered or about to be. */
  predicate HitsLater(w: World, t: Task)
  {
    || w.arriving == Some(t.sock)
    || (w.shared.clientSock == t.sock && w.shared.generation != t.gen)
  }

  lemma StepKeepsSocketsOpen(w: World, ev: Event)
    requires Inv(w) && SocketsOpen(w) && Enabled(w, ev)
    ensures SocketsOpen(Act(w, ev)) <==> !(ev.Ended? && HitsLater(w, ev.task))
  {
    var w' := Act(w, ev);
    match ev
    case Accepted(sock) =>
    case Registered =>
    case Started =>
    case StartFailed =>
    case Ended(t) => assert TaskOk(w, t);
    case Stopped =>
  }

  /**
   * The client's socket is open in every interleaving in which no task ends
   * after its descriptor number has passed to a later client.
   */
  lemma {:induction false} ClientSocketOpen(evs: seq<Event>)
    requires forall i :: 0 <= i < |evs| && evs[i].Ended? ==> !HitsLater(Before(evs, i), evs[i].task)
    ensures SocketsOpen(Run(evs))
  {
    if evs != [] {
      var n := |evs| - 1;
      forall i | 0 <= i < n && evs[..n][i].Ended?
        ensures !HitsLater(Before(evs[..n], i), evs[..n][i].task)
      {
        assert evs[..n][..i] == evs[..i];
        assert evs[i].Ended?;
      }
      ClientSocketOpen(evs[..n]);
      InvHolds(evs[..n]);
      assert !(evs[n].Ended? && HitsLater(Before(evs, n), evs[n].task));
      if Enabled(Run(evs[..n]), evs[n]) {
        StepKeepsSocketsOpen(Run(evs[..n]), evs[n]);
      }
    }
  }

  /** The descriptors that the server still needs: the client's and the one being handed over. */
  function Needed(w: World): (r: set<int>)
  {
    (if w.shared.clientSock == NO_SOCKET then {} else {w.shared.clientSock})
    + (if w.arriving.None? then {} else {w.arriving.value})
  }

  lemma ReplacingLeaksNothing(w: World, ev: Event)
    requires Inv(w) && w.open <= Needed(w) && Enabled(w, ev) && (ev.Registered? || ev.Stopped? || ev.Accepted?)
    ensures Act(w, ev).open <= Needed(Act(w, ev))
  {
    assert Elements([w.shared.clientSock]) == {w.shared.clientSock};
  }

  lemma EndingLeaksNothing(w: World, ev: Event)
    requires Inv(w) && w.open <= Needed(w) && Enabled(w, ev) && (ev.Started? || ev.StartFailed? || ev.Ended?)
    ensures Act(w, ev).open <= Needed(Act(w, ev))
  {
    var sock := if ev.Ended? then ev.task.sock else w.pending.value.sock;
    assert Elements([sock]) == {sock};
  }

  /** In every interleaving no descriptor stays open that is not the client's or about to become it. */
  lemma {:induction false} NoDescriptorLeaks(evs: seq<Event>)
    ensures Run(evs).open <= Needed(Run(evs))
  {
    if evs != [] {
      var n := |evs| - 1;
      NoDescriptorLeaks(evs[..n]);
      InvHolds(evs[..n]);
      if Enabled(Run(evs[..n]), evs[n]) {
        match evs[n]
        case Accepted(_) => ReplacingLeaksNothing(Run(evs[..n]), evs[n]);
        case Registered => ReplacingLeaksNothing(Run(evs[..n]), evs[n]);
        case Stopped => ReplacingLeaksNothing(Run(evs[..n]), evs[n]);
        case Started => EndingLeaksNothing(Run(evs[..n]), evs[n]);
        case StartFailed => EndingLeaksNothing(Run(evs[..n]), evs[n]);
        case Ended(_) => EndingLeaksNothing(Run(evs[..n]), evs[n]);
      }
    }
  }

  /** In every interleaving the server runs exactly until the first stop. */
  lemma {:induction false} RunsUntilStopped(evs: seq<Event>)
    ensures Run(evs).shared.running <==> Stopped !in evs
  {
    if evs != [] {
      var n := |evs| - 1;
      RunsUntilStopped(evs[..n]);
      assert evs == evs[..n] + [evs[n]];
    }
  }

  lemma HaltCloses(w: World)
    requires Inv(w) && w.shared.running
    ensures var w' := Step(w, Stopped);
            && w'.shared.clientSock == NO_SOCKET && w'.shared.generation == w.shared.generation
            && w'.closed == w.closed + (if w.shared.clientSock == NO_SOCKET then [] else [w.shared.clientSock])
            && (w.shared.clientSock != NO_SOCKET ==> w'.open == w.open - {w.shared.clientSock})
  {
    assert Elements([w.shared.clientSock]) == {w.shared.clientSock};
  }

  /** The first stop leaves no client and closes its socket, and nothing else; a later one does nothing. */
  lemma StopClosesClient(evs: seq<Event>)
    ensures var w := Run(evs); var w' := Step(w, Stopped);
            if Stopped in evs then w' == w
            else
              && !w'.shared.running && w'.shared.clientSock == NO_SOCKET
              && w'.closed == w.closed + (if w.shared.clientSock == NO_SOCKET then [] else [w.shared.clientSock])
              && (w.shared.clientSock != NO_SOCKET ==> w'.open == w.open - {w.shared.clientSock})
              && w'.live == w.live && w'.pending == w.pending && w'.arriving == w.arriving
  {
    RunsUntilStopped(evs);
    if Stopped !in evs {
      InvHolds(evs);
      HaltCloses(Run(evs));
    } else {
      var w := Run(evs);
      assert w.closed + [] == w.closed && w.open + {} - Elements([]) == w.open;
    }
  }

  /** Event `a` is the accept() whose descriptor was registered as client number `number`. */
  predicate IsAccept(evs: seq<Event>, a: nat, number: nat, sock: int)
  {
    && a < |evs| && evs[a].Accepted? && evs[a].sock == sock
    && Enabled(Before(evs, a), evs[a]) && |Before(evs, a).socks| + 1 == number
  }

  /** Event `c` closes descriptor `sock`. */
  predicate Closes(evs: seq<Event>, c: nat, sock: int)
  {
    c < |evs| && sock in Before(evs, c).open && sock !in Before(evs, c + 1).open
  }

  lemma IsAcceptExtends(evs: seq<Event>, a: nat, number: nat, sock: int)
    requires evs != [] && IsAccept(evs[..|evs| - 1], a, number, sock)
    ensures IsAccept(evs, a, number, sock)
  {
    assert evs[..|evs| - 1][..a] == evs[..a];
  }

  /** Every client, and the descriptor being handed over, came from an accept(). */
  lemma {:induction false} FindAccept(evs: seq<Event>, number: nat) returns (a: nat)
    requires 1 <= number <= |Run(evs).socks| + (if Run(evs).arriving.Some? then 1 else 0)
    ensures var w := Run(evs);
            IsAccept(evs, a, number, if number <= |w.socks| then w.socks[number - 1] else w.arriving.value)
    decreases |evs|
  {
    var n := |evs| - 1;
    var v := Run(evs[..n]);
    if number <= |v.socks| + (if v.arriving.Some? then 1 else 0) {
      a := FindAccept(evs[..n], number);
      IsAcceptExtends(evs, a, number, if number <= |v.socks| then v.socks[number - 1] else v.arriving.value);
    } else {
      a := n;
    }
  }

  lemma {:induction false} ClientsGrow(evs: seq<Event>, i: nat, j: nat)
    requires i <= j <= |evs|
    ensures Before(evs, i).socks <= Before(evs, j).socks
    decreases j - i
  {
    if i < j {
      BeforeStep(evs, j - 1);
      ClientsGrow(evs, i, j - 1);
    }
  }

  /** A descriptor that is open at one time and not at a later one was closed in between. */
  lemma {:induction false} FindClose(evs: seq<Event>, i: nat, j: nat, sock: int) returns (c: nat)
    requires i <= j <= |evs| && sock in Before(evs, i).open && sock !in Before(evs, j).open
    ensures i <= c < j && Closes(evs, c, sock)
    decreases j - i
  {
    if sock in Before(evs, i + 1).open {
      c := FindClose(evs, i + 1, j, sock);
    } else {
      c := i;
    }
  }

  /** The task has ended, and will not come back. */
  ghost predicate Gone(w: World, t: Task)
  {
    t !in w.live && t.number <= |w.socks| && w.pending != Some(t)
  }

  lemma {:induction false} GoneStaysGone(evs: seq<Event>, i: nat, j: nat, t: Task)
    requires i <= j <= |evs| && Gone(Before(evs, i), t)
    ensures Gone(Before(evs, j), t)
    decreases j - i
  {
    if i < j {
      BeforeStep(evs, j - 1);
      GoneStaysGone(evs, i, j - 1, t);
    }
  }

  lemma LiveHasNotEnded(evs: seq<Event>, c: nat, t: Task)
    requires c < |evs| && t in Run(evs).live && t in Before(evs, c).live
    ensures evs[c] != Ended(t)
  {
    assert Before(evs, |evs|) == Run(evs) by {
      assert evs[..|evs|] == evs;
    }
    if evs[c] == Ended(t) {
      BeforeStep(evs, c);
      InvHolds(evs[..c]);
      assert TaskOk(Before(evs, c), t);
      GoneStaysGone(evs, c + 1, |evs|, t);
    }
  }

  /** What accept `a` returned becomes the next client. */
  lemma {:induction false} AcceptRegisters(evs: seq<Event>, a: nat, number: nat, sock: int, j: nat)
    requires IsAccept(evs, a, number, sock) && a < j <= |evs|
    ensures var w := Before(evs, j);
            if |w.socks| < number then |w.socks| + 1 == number && w.arriving.Some? && w.arriving.value == sock
            else w.socks[number - 1] == sock
    decreases j
  {
    BeforeStep(evs, j - 1);
    if a < j - 1 {
      AcceptRegisters(evs, a, number, sock, j - 1);
    }
  }

  /**
   * The history of a stale task whose descriptor is the client's: accept()
   * gave the number out, something other than the task's own end closed it,
   * and the latest accept() gave it out again.
   */
  ghost predicate GivenOutAgain(evs: seq<Event>, t: Task)
  {
    exists a: nat, c: nat, j: nat ::
      && a < c < j && IsAccept(evs, a, t.number, t.sock)
      && Closes(evs, c, t.sock) && evs[c] != Ended(t)
      && IsAccept(evs, j, |Run(evs).socks|, t.sock)
  }

  lemma StaleDescriptorWasGivenOutAgain(evs: seq<Event>, t: Task)
    requires t in Run(evs).live && t.number < |Run(evs).socks|
    requires Run(evs).socks[|Run(evs).socks| - 1] == t.sock
    ensures GivenOutAgain(evs, t)
  {
    LiveTaskFacts(evs, t);
    var last := |Run(evs).socks|;
    var a := FindAccept(evs, t.number);
    var j := FindAccept(evs, last);
    if j <= a {
      ClientsGrow(evs, j, a);
      assert false;
    }
    BeforeStep(evs, a);
    AcceptOpens(Before(evs, a), evs[a]);
    var c := FindClose(evs, a + 1, j, t.sock);
    if evs[c] == Ended(t) {
      BeforeStep(evs, c);
      LiveHasNotEnded(evs, c, t);
    }
  }

  lemma AcceptOpens(w: World, ev: Event)
    requires ev.Accepted? && Enabled(w, ev)
    ensures ev.sock in Step(w, ev).open
  {
  }

  lemma StaleGeneration(evs: seq<Event>, t: Task)
    requires t in Run(evs).live && 0 < |Run(evs).socks| - t.number < GENERATIONS
    ensures Run(evs).shared.generation != t.gen
  {
    LiveTaskFacts(evs, t);
  }

  /** The number is the client's exactly if there is a client and the number was given out again. */
  lemma ClientHasNumberIff(evs: seq<Event>, t: Task)
    requires t in Run(evs).live && t.number < |Run(evs).socks|
    ensures var w := Run(evs);
            w.shared.clientSock == t.sock <==> w.shared.clientSock != NO_SOCKET && GivenOutAgain(evs, t)
  {
    InvHolds(evs);
    LiveTaskFacts(evs, t);
    if Run(evs).shared.clientSock == t.sock {
      StaleDescriptorWasGivenOutAgain(evs, t);
    }
    if GivenOutAgain(evs, t) {
      GivenOutAgainIsLatest(evs, t);
    }
  }

  lemma GivenOutAgainIsLatest(evs: seq<Event>, t: Task)
    requires GivenOutAgain(evs, t) && Run(evs).socks != []
    ensures var w := Run(evs); w.socks[|w.socks| - 1] == t.sock
  {
    var number := |Run(evs).socks|;
    var j: nat :| IsAccept(evs, j, number, t.sock);
    AcceptRegisters(evs, j, number, t.sock, |evs|);
    assert evs[..|evs|] == evs;
  }

  lemma StaleCloseHitsIff(w: World, t: Task)
    requires t in w.live && w.shared.generation != t.gen
    ensures var w' := Step(w, Ended(t));
            && w'.shared == w.shared
            && (w.shared.clientSock in w.open && w.shared.clientSock !in w'.open
                <==> w.shared.clientSock == t.sock && t.sock in w.open)
  {
    assert Section(w, Ended(t)) == Outcome(w.shared, [t.sock]);
    assert Elements([t.sock]) == {t.sock};
  }

  /**
   * What a stale task does within 2^32 clients: its defensive close shuts the
   * registered client's open socket, leaving the client registered, exactly
   * if that socket is open and has the task's number; and the number is the
   * client's exactly if there is a client and the number was closed and given
   * out again since.
   */
  lemma StaleTaskClosesClientIff(evs: seq<Event>, t: Task)
    requires t in Run(evs).live && 0 < |Run(evs).socks| - t.number < GENERATIONS
    ensures var w := Run(evs); var w' := Step(w, Ended(t));
            && w'.shared == w.shared
            && (w.shared.clientSock in w.open && w.shared.clientSock !in w'.open
                <==> w.shared.clientSock == t.sock && t.sock in w.open)
            && (w.shared.clientSock == t.sock <==> w.shared.clientSock != NO_SOCKET && GivenOutAgain(evs, t))
  {
    StaleGeneration(evs, t);
    StaleCloseHitsIff(Run(evs), t);
    ClientHasNumberIff(evs, t);
  }

  // ----- who reads the client's socket

  /** A live receive task calls recv on its descriptor number, whoever that belongs to now. */
  predicate Reads(w: World, t: Task)
  {
    t in w.live && t.sock == w.shared.clientSock
  }

  /** Tasks of the same client are the same task. */
  lemma OneTaskPerClient(evs: seq<Event>, t: Task, u: Task)
    requires t in Run(evs).live && u in Run(evs).live && t.number == u.number
    ensures t == u
  {
    LiveTaskFacts(evs, t);
    LiveTaskFacts(evs, u);
  }

  /**
   * While there is a client, its own task is the only one that reads its
   * socket, and so the only one that forwards its bytes, exactly if no live
   * task of an earlier client has a number that was closed and given out again.
   */
  lemma OnlyOwnTaskReadsIff(evs: seq<Event>)
    requires Run(evs).shared.clientSock != NO_SOCKET
    ensures var w := Run(evs);
            (forall t :: Reads(w, t) ==> t.number == |w.socks|)
            <==> (forall t :: t in w.live && t.number < |w.socks| ==> !GivenOutAgain(evs, t))
    ensures var w := Run(evs);
            forall t, u :: Reads(w, t) && Reads(w, u) && t.number == u.number ==> t == u
  {
    var w := Run(evs);
    forall t | t in w.live
      ensures t.number <= |w.socks| && (t.number < |w.socks| ==> (Reads(w, t) <==> GivenOutAgain(evs, t)))
    {
      LiveTaskFacts(evs, t);
      if t.number < |w.socks| {
        ClientHasNumberIff(evs, t);
      }
    }
    forall t, u | Reads(w, t) && Reads(w, u) && t.number == u.number
      ensures t == u
    {
      OneTaskPerClient(evs, t, u);
    }
  }

  // ----- a run that shows it

  lemma Next(evs: seq<Event>, ev: Event)
    requires Possible(evs) && Enabled(Run(evs), ev)
    ensures Possible(evs + [ev]) && Run(evs + [ev]) == Act(Run(evs), ev)
  {
    var all := evs + [ev];
    assert all[..|evs|] == evs;
    forall i | 0 <= i < |all|
      ensures Enabled(Before(all, i), all[i])
    {
      if i < |evs| {
        assert all[..i] == evs[..i];
        assert Enabled(Before(evs, i), evs[i]);
      }
    }
  }

  function Serve(evs: seq<Event>, sock: nat): (r: seq<Event>) { evs + [Accepted(sock)] + [Registered] + [Started] }

  /** The world after a new client on a descriptor that was not open. */
  function Served(w: World, sock: nat): (r: World)
  {
    var o := TakeClient(w.shared, sock);
    w.(shared := o.shared, open := w.open + {sock} - Elements(o.closed), closed := w.closed + o.closed,
       socks := w.socks + [sock], live := w.live + {Task(sock, o.shared.generation, |w.socks| + 1)})
  }

  lemma ServeRun(evs: seq<Event>, sock: nat)
    requires Possible(evs) && Run(evs).arriving.None? && Run(evs).pending.None? && sock !in Run(evs).open
    ensures Possible(Serve(evs, sock)) && Run(Serve(evs, sock)) == Served(Run(evs), sock)
  {
    var w := Run(evs);
    Next(evs, Accepted(sock));
    Next(evs + [Accepted(sock)], Registered);
    Next(evs + [Accepted(sock)] + [Registered], Started);
    assert w.closed + [] == w.closed;
  }

  const FIRST := Task(7, 1, 1)
  const SECOND := Task(8, 2, 2)
  const THIRD := Task(7, 3, 3)

  /** Client 7, then client 8, then a client that gets number 7 again; no receive task has ended. */
  const REUSED := World(Shared(7, 3, true), {7}, [7, 8], [7, 8, 7], None, None, {FIRST, SECOND, THIRD}, 0, 0)

  lemma TwoClients() returns (evs: seq<Event>)
    ensures Possible(evs)
    ensures Run(evs) == World(Shared(8, 2, true), {8}, [7], [7, 8], None, None, {FIRST, SECOND}, 0, 0)
  {
    ServeRun([], 7);
    evs := Serve([], 7);
    assert Run(evs) == World(Shared(7, 1, true), {7}, [], [7], None, None, {FIRST}, 0, 0);
    ServeRun(evs, 8);
    evs := Serve(evs, 8);
    assert Elements([7]) == {7};
  }

  lemma ThreeClients() returns (evs: seq<Event>)
    ensures Possible(evs) && Run(evs) == REUSED
  {
    evs := TwoClients();
    ServeRun(evs, 7);
    evs := Serve(evs, 7);
    assert Elements([8]) == {8};
  }

  /**
   * A run in which the receive task of the first client is still alive when
   * the third client has its number: ending, it closes the third client's
   * socket, which until then both tasks read. Given out once more, the number
   * is closed by its own registration, as that of the previous client.
   */
  lemma StaleTaskClosesReusedDescriptor() returns (evs: seq<Event>)
    ensures Possible(evs) && Run(evs) == REUSED && Reads(REUSED, FIRST) && Reads(REUSED, THIRD)
    ensures var ended := Run(evs + [Ended(FIRST)]);
            Possible(evs + [Ended(FIRST)]) && ended.shared == REUSED.shared && 7 !in ended.open
    ensures var again := Serve(evs + [Ended(FIRST)], 7);
            Possible(again) && Run(again).shared.clientSock == 7 && 7 !in Run(again).open
  {
    evs := ThreeClients();
    Next(evs, Ended(FIRST));
    assert Elements([7]) == {7};
    var ended := Act(REUSED, Ended(FIRST));
    assert ended.shared == REUSED.shared && ended.open == {};
    ServeRun(evs + [Ended(FIRST)], 7);
  }
}
