/**
 * The two timers of the receive task, in true time. The code compares 32-bit
 * tick values by wrapping subtraction; here the events carry the true time and
 * the theorems say when the timers go off in terms of it.
 */
module ExpansionTimers {
  import opened Streams
  import opened ExpansionFrames
  import opened ExpansionLink

  type Trace = seq<Action>

  // ----- clocks

  predicate Timed(ev: Event)
  {
    ev.Read? || ev.WatchdogCheck? || ev.HeartbeatCheck? || ev.Connect?
  }

  /** Time of the last timed event; the receive task starts at time `start`. */
  function Clock(start: nat, evs: seq<Event>): (r: nat)
  {
    if evs == [] then start
    else if Timed(evs[|evs| - 1]) then evs[|evs| - 1].at
    else Clock(start, evs[..|evs| - 1])
  }

  function LastWatchdogCheck(start: nat, evs: seq<Event>): (r: nat)
  {
    if evs == [] then start
    else if evs[|evs| - 1].WatchdogCheck? then evs[|evs| - 1].at
    else LastWatchdogCheck(start, evs[..|evs| - 1])
  }

  function LastHeartbeatCheck(start: nat, evs: seq<Event>): (r: nat)
  {
    if evs == [] then start
    else if evs[|evs| - 1].HeartbeatCheck? then evs[|evs| - 1].at
    else LastHeartbeatCheck(start, evs[..|evs| - 1])
  }

  /**
   * Time does not run backwards, and the receive loop, started at time `start`,
   * makes each check at most `d` ticks after the previous one.
   */
  predicate Schedule(start: nat, evs: seq<Event>, d: nat)
  {
    evs == [] ||
    var before, ev := evs[..|evs| - 1], evs[|evs| - 1];
    && Schedule(start, before, d)
    && (Timed(ev) ==> Clock(start, before) <= ev.at)
    && (ev.WatchdogCheck? ==> ev.at <= LastWatchdogCheck(start, before) + d)
    && (ev.HeartbeatCheck? ==> ev.at <= LastHeartbeatCheck(start, before) + d)
  }

  lemma {:induction false} ChecksBeforeClock(start: nat, evs: seq<Event>, d: nat)
    requires Schedule(start, evs, d)
    ensures LastWatchdogCheck(start, evs) <= Clock(start, evs) && LastHeartbeatCheck(start, evs) <= Clock(start, evs)
  {
    if evs != [] {
      ChecksBeforeClock(start, evs[..|evs| - 1], d);
    }
  }

  // ----- watchdog

  /** True time of the last processed frame, connect or watchdog firing. */
  function LastStamp(t: Trace): (r: Option<nat>)
  {
    if t == [] then None
    else
      match t[|t| - 1]
      case Processed(_, at) => Some(at)
      case Connecting(at, _) => Some(at)
      case Expired(at, _) => Some(at)
      case _ => LastStamp(t[..|t| - 1])
  }

  predicate Stamps(a: Action)
  {
    a.Processed? || a.Connecting? || a.Expired?
  }

  lemma {:induction false} NoStamp(t: Trace, more: Trace)
    requires forall i :: 0 <= i < |more| ==> !Stamps(more[i])
    ensures LastStamp(t + more) == LastStamp(t)
  {
    if more == [] {
      assert t + more == t;
    } else {
      var n := |more| - 1;
      assert (t + more)[..|t| + n] == t + more[..n];
      NoStamp(t, more[..n]);
    }
  }

  /** An event either stamps the link with its own time or leaves stamp and state alone. */
  ghost predicate StampedOrSame(l: Link, l': Link, t: Trace, t': Trace, at: nat)
  {
    || (LastStamp(t') == Some(at) && l'.lastRx == Wrap(at))
    || (LastStamp(t') == LastStamp(t) && l'.lastRx == l.lastRx && l'.state == l.state)
  }

  lemma StampThenAnswers(t: Trace, f: Bytes, at: nat, rest: Trace)
    requires forall i :: 0 <= i < |rest| ==> !Stamps(rest[i])
    ensures LastStamp(t + ([Processed(f, at)] + rest)) == Some(at)
  {
    Assoc(t, [Processed(f, at)], rest);
    NoStamp(t + [Processed(f, at)], rest);
  }

  lemma FrameDoesNotStamp(cfg: Config, l: Link, f: Bytes, at: nat)
    requires Sized(f)
    ensures var e := ProcessFrame(cfg, l, f, at);
            e.link.lastRx == Wrap(at) && forall i :: 0 <= i < |e.actions| ==> !Stamps(e.actions[i])
  {
  }

  lemma ItemStamp(cfg: Config, l: Link, item: Item, at: nat, t: Trace)
    requires item.Frame? ==> Sized(item.bytes)
    ensures var e := ApplyItem(cfg, l, item, at); StampedOrSame(l, e.link, t, t + e.actions, at)
  {
    match item
    case Skip(b) => NoStamp(t, [Skipped(b)]);
    case Frame(f) =>
      FrameDoesNotStamp(cfg, l, f, at);
      StampThenAnswers(t, f, at, ProcessFrame(cfg, l, f, at).actions);
  }

  lemma LastItemStamp(cfg: Config, l: Link, items: seq<Item>, at: nat, t: Trace) returns (e: Effect, e': Effect)
    requires ItemsSized(items) && items != []
    ensures e == ApplyItems(cfg, l, items[..|items| - 1], at) && e' == ApplyItems(cfg, l, items, at)
    ensures StampedOrSame(e.link, e'.link, t + e.actions, t + e'.actions, at)
  {
    e := ApplyItems(cfg, l, items[..|items| - 1], at);
    e' := ApplyItems(cfg, l, items, at);
    ItemStamp(cfg, e.link, items[|items| - 1], at, t + e.actions);
    Assoc(t, e.actions, ApplyItem(cfg, e.link, items[|items| - 1], at).actions);
  }

  lemma {:induction false} ItemsStamp(cfg: Config, l: Link, items: seq<Item>, at: nat, t: Trace)
    requires ItemsSized(items)
    ensures var e := ApplyItems(cfg, l, items, at); StampedOrSame(l, e.link, t, t + e.actions, at)
  {
    if items == [] {
      assert t + [] == t;
    } else {
      ItemsStamp(cfg, l, items[..|items| - 1], at, t);
      var e, e' := LastItemStamp(cfg, l, items, at, t);
    }
  }

  lemma StepStamp(cfg: Config, l: Link, ev: Event, t: Trace)
    requires Parked(l)
    ensures var e := Step(cfg, l, ev);
            if ev.Disconnect?
            then LastStamp(t + e.actions) == LastStamp(t) && e.link.lastRx == l.lastRx && e.link.state == Disconnected
            else StampedOrSame(l, e.link, t, t + e.actions, if Timed(ev) then ev.at else 0)
  {
    match ev
    case Read(chunk, at) =>
      ParseSized(l.rx + Taken(l, chunk));
      ItemsStamp(cfg, l, Parse(l.rx + Taken(l, chunk)).items, at, t);
    case WatchdogCheck(at) =>
      var more := CheckWatchdog(cfg, l, at).actions;
      assert more == [] ==> t + more == t;
    case Connect(at) =>
      var more := ConnectLink(l, at).actions;
      assert more == [] ==> t + more == t;
    case HeartbeatCheck(at) => NoStamp(t, CheckHeartbeat(cfg, l, at).actions);
    case Disconnect => NoStamp(t, DisconnectLink(l).actions);
    case Send(data) => NoStamp(t, BeginSend(l, data).actions);
    case Pass(i, taken) => NoStamp(t, SendPass(l, i, taken).actions);
  }

  /** The stored tick is the stamp's, and while the watchdog is armed no check came too late for it. */
  ghost predicate WatchdogInv(cfg: Config, start: nat, evs: seq<Event>)
    requires EventsOk(evs)
  {
    var e := Run(cfg, INITIAL, evs);
    match LastStamp(e.actions)
    case None => e.link.lastRx == 0 && e.link.state == Disconnected
    case Some(r) =>
      && r <= Clock(start, evs)
      && e.link.lastRx == Wrap(r)
      && (e.link.state != Disconnected && e.link.lastRx != 0 ==>
            LastWatchdogCheck(start, evs) <= r + cfg.WatchdogTicks())
  }

  /** Rounding the limit down to ticks does not move it: ticks are whole. */
  lemma LimitInMilliseconds(ms: nat, tickRateHz: nat, ticks: nat)
    requires ticks == ms * tickRateHz / 1000
    ensures 1000 * ticks <= ms * tickRateHz < 1000 * (ticks + 1)
  {
    var n := ms * tickRateHz;
    assert 1000 * (n / 1000) <= n < 1000 * (n / 1000) + 1000;
  }

  /** If no check came too late so far, the wrapped comparison of the next one is the comparison of true times. */
  lemma TimerCompare(limit: nat, d: nat, at: nat, r: nat, check: nat)
    requires limit + d < TICK_RANGE
    requires r <= at && at <= check + d && check <= r + limit
    ensures at - r <= limit + d
    ensures Elapsed(Wrap(at), Wrap(r)) == at - r
  {
    ElapsedIsTrueTime(at, r);
  }

  lemma {:induction false} WatchdogInvHolds(cfg: Config, start: nat, d: nat, evs: seq<Event>)
    requires EventsOk(evs) && Schedule(start, evs, d) && cfg.WatchdogTicks() + d < TICK_RANGE
    ensures WatchdogInv(cfg, start, evs)
  {
    if evs != [] {
      var before, ev := evs[..|evs| - 1], evs[|evs| - 1];
      WatchdogInvHolds(cfg, start, d, before);
      ChecksBeforeClock(start, before, d);
      ChecksBeforeClock(start, evs, d);
      WatchdogInvStep(cfg, start, d, evs);
    }
  }

  lemma WatchdogInvStep(cfg: Config, start: nat, d: nat, evs: seq<Event>)
    requires evs != [] && EventsOk(evs) && Schedule(start, evs, d) && cfg.WatchdogTicks() + d < TICK_RANGE
    requires WatchdogInv(cfg, start, evs[..|evs| - 1]) && LastWatchdogCheck(start, evs) <= Clock(start, evs)
    ensures WatchdogInv(cfg, start, evs)
  {
    var before, ev := evs[..|evs| - 1], evs[|evs| - 1];
    var e := Run(cfg, INITIAL, before);
    StepStamp(cfg, e.link, ev, e.actions);
    if ev.WatchdogCheck? && e.link.state != Disconnected && e.link.lastRx != 0 {
      TimerCompare(cfg.WatchdogTicks(), d, ev.at, LastStamp(e.actions).value, LastWatchdogCheck(start, before));
    }
  }

  /**
   * Outside DISCONNECTED, a watchdog check at true time `at` fires exactly when
   * more than 1500 ms, at whatever tick rate, have passed since the last processed frame, connect or
   * firing, and then at most the check interval more, across any number of
   * wraps of the tick counter. The one exception is a stamp whose tick value is
   * zero: the code takes it for "never" and the watchdog stays silent.
   */
  lemma WatchdogFiresExactly(cfg: Config, start: nat, d: nat, evs: seq<Event>, at: nat)
    requires EventsOk(evs) && Schedule(start, evs + [WatchdogCheck(at)], d)
    requires 1500 * cfg.tickRateHz + 1000 * d < 1000 * TICK_RANGE
    requires Run(cfg, INITIAL, evs).link.state != Disconnected
    ensures var e := Run(cfg, INITIAL, evs);
            && LastStamp(e.actions).Some?
            && var r := LastStamp(e.actions).value;
            && r <= at
            && (CheckWatchdog(cfg, e.link, at).actions == [Expired(at, e.link.rx)]
                <==> r % TICK_RANGE != 0 && 1000 * (at - r) > 1500 * cfg.tickRateHz)
            && (r % TICK_RANGE != 0 ==> 1000 * (at - r) <= 1500 * cfg.tickRateHz + 1000 * d)
  {
    LimitInMilliseconds(1500, cfg.tickRateHz, cfg.WatchdogTicks());
    var all := evs + [WatchdogCheck(at)];
    assert all[..|evs|] == evs;
    WatchdogInvHolds(cfg, start, d, evs);
    var e := Run(cfg, INITIAL, evs);
    var r := LastStamp(e.actions).value;
    if r % TICK_RANGE != 0 {
      TimerCompare(cfg.WatchdogTicks(), d, at, r, LastWatchdogCheck(start, evs));
    }
  }

  /** The exception at work: after a connect at a tick value of zero no check ever fires. */
  lemma WatchdogBlindAtTickZero(cfg: Config, at: nat)
    ensures var l := Run(cfg, INITIAL, [Connect(TICK_RANGE)]).link;
            l.state == AwaitingHeartbeat && CheckWatchdog(cfg, l, at) == Effect(l, [])
  {
    var evs := [Connect(TICK_RANGE)];
    assert evs[..0] == [];
    assert Run(cfg, INITIAL, evs[..0]) == Effect(INITIAL, []);
    assert Wrap(TICK_RANGE) == 0;
  }

  // ----- heartbeat

  /** Time of the last periodic heartbeat, if the session has been active without interruption since. */
  function ActiveBeat(t: Trace): (r: Option<nat>)
  {
    if t == [] || StateAfter(Disconnected, t) != RpcActive then None
    else if t[|t| - 1].Beat? then Some(t[|t| - 1].at)
    else ActiveBeat(t[..|t| - 1])
  }

  lemma {:induction false} NoBeat(t: Trace, more: Trace)
    requires forall i :: 0 <= i < |more| ==> !more[i].Beat?
    ensures ActiveBeat(t + more) == None || ActiveBeat(t + more) == ActiveBeat(t)
  {
    if more == [] {
      assert t + more == t;
    } else {
      var n := |more| - 1;
      assert (t + more)[..|t| + n] == t + more[..n];
      NoBeat(t, more[..n]);
    }
  }

  lemma LastItemBeats(cfg: Config, l: Link, items: seq<Item>, at: nat) returns (e: Effect, step: Effect)
    requires ItemsSized(items) && items != []
    ensures e == ApplyItems(cfg, l, items[..|items| - 1], at) && ApplyItems(cfg, l, items, at) == Then(e, step)
    ensures step.link.lastHeartbeat == e.link.lastHeartbeat
    ensures forall i :: 0 <= i < |step.actions| ==> !step.actions[i].Beat? && !step.actions[i].Connecting?
  {
    e := ApplyItems(cfg, l, items[..|items| - 1], at);
    step := ApplyItem(cfg, e.link, items[|items| - 1], at);
  }

  lemma {:induction false} ItemsBeat(cfg: Config, l: Link, items: seq<Item>, at: nat)
    requires ItemsSized(items)
    ensures var e := ApplyItems(cfg, l, items, at);
            && e.link.lastHeartbeat == l.lastHeartbeat
            && forall i :: 0 <= i < |e.actions| ==> !e.actions[i].Beat? && !e.actions[i].Connecting?
  {
    if items != [] {
      ItemsBeat(cfg, l, items[..|items| - 1], at);
      var e, step := LastItemBeats(cfg, l, items, at);
    }
  }

  lemma StepBeats(cfg: Config, l: Link, ev: Event)
    requires Parked(l) && !ev.HeartbeatCheck?
    ensures var e := Step(cfg, l, ev);
            e.link.lastHeartbeat == l.lastHeartbeat && forall i :: 0 <= i < |e.actions| ==> !e.actions[i].Beat?
    ensures var t := Step(cfg, l, ev).actions;
            l.state == RpcActive ==> forall i :: 0 <= i < |t| ==> !t[i].Connecting?
  {
    if ev.Read? {
      ParseSized(l.rx + Taken(l, ev.chunk));
      ItemsBeat(cfg, l, Parse(l.rx + Taken(l, ev.chunk)).items, ev.at);
    }
  }

  ghost predicate HeartbeatInv(cfg: Config, start: nat, evs: seq<Event>)
    requires EventsOk(evs)
  {
    var e := Run(cfg, INITIAL, evs);
    match ActiveBeat(e.actions)
    case None => true
    case Some(r) =>
      && r <= Clock(start, evs)
      && e.link.lastHeartbeat == Wrap(r)
      && LastHeartbeatCheck(start, evs) <= r + cfg.HeartbeatTicks()
  }

  lemma BeatRecorded(t: Trace, at: nat)
    ensures var t' := t + [Beat(at), Transmitted(Heartbeat)]; ActiveBeat(t') in {None, Some(at)}
  {
    Assoc(t, [Beat(at)], [Transmitted(Heartbeat)]);
    NoBeat(t + [Beat(at)], [Transmitted(Heartbeat)]);
  }

  lemma CheckBeats(cfg: Config, d: nat, e: Effect, at: nat, clock: nat, check: nat)
    requires cfg.HeartbeatTicks() + d < TICK_RANGE && clock <= at && at <= check + d
    requires ActiveBeat(e.actions).Some? ==>
               var r := ActiveBeat(e.actions).value;
               r <= clock && e.link.lastHeartbeat == Wrap(r) && check <= r + cfg.HeartbeatTicks()
    requires e.link.state == StateAfter(Disconnected, e.actions)
    ensures var e' := CheckHeartbeat(cfg, e.link, at);
            match ActiveBeat(e.actions + e'.actions)
            case None => true
            case Some(r) => r <= at && e'.link.lastHeartbeat == Wrap(r) && at - r <= cfg.HeartbeatTicks()
  {
    var e' := CheckHeartbeat(cfg, e.link, at);
    if e'.actions == [] {
      assert e.actions + e'.actions == e.actions;
      if ActiveBeat(e.actions).Some? {
        TimerCompare(cfg.HeartbeatTicks(), d, at, ActiveBeat(e.actions).value, check);
      }
    } else {
      BeatRecorded(e.actions, at);
    }
  }

  lemma {:induction false} HeartbeatInvHolds(cfg: Config, start: nat, d: nat, evs: seq<Event>)
    requires EventsOk(evs) && Schedule(start, evs, d) && cfg.HeartbeatTicks() + d < TICK_RANGE
    ensures HeartbeatInv(cfg, start, evs)
  {
    if evs != [] {
      HeartbeatInvHolds(cfg, start, d, evs[..|evs| - 1]);
      ChecksBeforeClock(start, evs[..|evs| - 1], d);
      RunState(cfg, INITIAL, evs[..|evs| - 1]);
      HeartbeatInvStep(cfg, start, d, evs);
    }
  }

  lemma HeartbeatInvStep(cfg: Config, start: nat, d: nat, evs: seq<Event>)
    requires evs != [] && EventsOk(evs) && Schedule(start, evs, d) && cfg.HeartbeatTicks() + d < TICK_RANGE
    requires HeartbeatInv(cfg, start, evs[..|evs| - 1])
    requires var e := Run(cfg, INITIAL, evs[..|evs| - 1]); e.link.state == StateAfter(Disconnected, e.actions)
    ensures HeartbeatInv(cfg, start, evs)
  {
    var before, ev := evs[..|evs| - 1], evs[|evs| - 1];
    var e := Run(cfg, INITIAL, before);
    if ev.HeartbeatCheck? {
      CheckBeats(cfg, d, e, ev.at, Clock(start, before), LastHeartbeatCheck(start, before));
    } else {
      StepBeats(cfg, e.link, ev);
      NoBeat(e.actions, Step(cfg, e.link, ev).actions);
    }
  }

  /**
   * Within one uninterrupted active period, a heartbeat check at true time
   * `at` sends exactly when more than 200 ms have passed since the previous
   * periodic heartbeat, and then at most the check interval more: checks 50 ms
   * apart keep within the 250 ms the protocol allows.
   */
  lemma HeartbeatsOnTime(cfg: Config, start: nat, d: nat, evs: seq<Event>, at: nat)
    requires EventsOk(evs) && Schedule(start, evs + [HeartbeatCheck(at)], d)
    requires 200 * cfg.tickRateHz + 1000 * d < 1000 * TICK_RANGE
    requires ActiveBeat(Run(cfg, INITIAL, evs).actions).Some?
    ensures var e := Run(cfg, INITIAL, evs);
            var r := ActiveBeat(e.actions).value;
            && r <= at
            && (CheckHeartbeat(cfg, e.link, at).actions == [Beat(at), Transmitted(Heartbeat)]
                <==> 1000 * (at - r) > 200 * cfg.tickRateHz)
            && 1000 * (at - r) <= 200 * cfg.tickRateHz + 1000 * d
  {
    LimitInMilliseconds(200, cfg.tickRateHz, cfg.HeartbeatTicks());
    var all := evs + [HeartbeatCheck(at)];
    assert all[..|evs|] == evs;
    HeartbeatInvHolds(cfg, start, d, evs);
    var e := Run(cfg, INITIAL, evs);
    RunState(cfg, INITIAL, evs);
    TimerCompare(cfg.HeartbeatTicks(), d, at, ActiveBeat(e.actions).value, LastHeartbeatCheck(start, evs));
  }

  // ----- the first heartbeat of a session

  /** Time of the last periodic heartbeat ever sent; the stored tick starts as that of time zero. */
  function LastBeat(t: Trace): (r: nat)
  {
    if t == [] then 0
    else if t[|t| - 1].Beat? then t[|t| - 1].at
    else LastBeat(t[..|t| - 1])
  }

  lemma {:induction false} NoNewBeat(t: Trace, more: Trace)
    requires forall i :: 0 <= i < |more| ==> !more[i].Beat?
    ensures LastBeat(t + more) == LastBeat(t)
  {
    if more == [] {
      assert t + more == t;
    } else {
      var n := |more| - 1;
      assert (t + more)[..|t| + n] == t + more[..n];
      NoNewBeat(t, more[..n]);
    }
  }

  lemma NewBeat(t: Trace, at: nat)
    ensures LastBeat(t + [Beat(at), Transmitted(Heartbeat)]) == at
  {
    Assoc(t, [Beat(at)], [Transmitted(Heartbeat)]);
    NoNewBeat(t + [Beat(at)], [Transmitted(Heartbeat)]);
  }

  /** In every run the stored tick is that of the last heartbeat. */
  lemma {:induction false} StoredBeat(cfg: Config, evs: seq<Event>)
    requires EventsOk(evs)
    ensures var e := Run(cfg, INITIAL, evs); e.link.lastHeartbeat == Wrap(LastBeat(e.actions))
  {
    if evs != [] {
      var n := |evs| - 1;
      StoredBeat(cfg, evs[..n]);
      var e := Run(cfg, INITIAL, evs[..n]);
      StoredBeatStep(cfg, e, evs[n]);
    }
  }

  lemma StoredBeatStep(cfg: Config, e: Effect, ev: Event)
    requires Parked(e.link) && e.link.lastHeartbeat == Wrap(LastBeat(e.actions))
    ensures var e' := Step(cfg, e.link, ev); e'.link.lastHeartbeat == Wrap(LastBeat(e.actions + e'.actions))
  {
    var e' := Step(cfg, e.link, ev);
    if !ev.HeartbeatCheck? {
      StepBeats(cfg, e.link, ev);
      NoNewBeat(e.actions, e'.actions);
    } else if e'.actions == [] {
      assert e.actions + e'.actions == e.actions;
    } else {
      NewBeat(e.actions, ev.at);
    }
  }

  lemma ElapsedAnyTime(at: nat, since: nat)
    ensures Elapsed(Wrap(at), Wrap(since)) == (at - since) % TICK_RANGE
  {
    var qa, qs := at / TICK_RANGE, since / TICK_RANGE;
    assert Wrap(at) - Wrap(since) == (at - since) + (qs - qa) * TICK_RANGE;
    ModShift(at - since, qs - qa);
  }

  /** More than 200 ms since then, as far as a 32-bit counter can tell. */
  predicate Due(cfg: Config, at: nat, since: nat)
  {
    1000 * ((at - since) % TICK_RANGE) > 200 * cfg.tickRateHz
  }

  /**
   * In every run, a check of an active session sends exactly if more than
   * 200 ms have passed since the last heartbeat of any session, or since time
   * zero, as far as a 32-bit counter can tell.
   */
  lemma HeartbeatSentIff(cfg: Config, evs: seq<Event>, at: nat)
    requires EventsOk(evs) && Run(cfg, INITIAL, evs).link.state == RpcActive
    ensures var e := Run(cfg, INITIAL, evs);
            CheckHeartbeat(cfg, e.link, at).actions == [Beat(at), Transmitted(Heartbeat)]
            <==> Due(cfg, at, LastBeat(e.actions))
  {
    StoredBeat(cfg, evs);
    var e := Run(cfg, INITIAL, evs);
    CheckSendsIff(cfg, e.link, at, LastBeat(e.actions));
  }

  lemma CheckSendsIff(cfg: Config, l: Link, at: nat, since: nat)
    requires l.state == RpcActive && l.lastHeartbeat == Wrap(since)
    ensures CheckHeartbeat(cfg, l, at).actions == [Beat(at), Transmitted(Heartbeat)] <==> Due(cfg, at, since)
  {
    ElapsedAnyTime(at, since);
    LimitInMilliseconds(200, cfg.tickRateHz, cfg.HeartbeatTicks());
  }

  /** Time of the first heartbeat check since the session became active, if it is and there was one. */
  ghost function FirstCheck(cfg: Config, evs: seq<Event>): (r: Option<nat>)
    requires EventsOk(evs)
  {
    if evs == [] || Run(cfg, INITIAL, evs).link.state != RpcActive then None
    else
      var n := |evs| - 1;
      if FirstCheck(cfg, evs[..n]).Some? then FirstCheck(cfg, evs[..n])
      else if evs[n].HeartbeatCheck? then Some(evs[n].at)
      else None
  }

  /** Since the first check of the session a heartbeat was sent, or it is not overdue. */
  ghost predicate FirstBeatInv(cfg: Config, start: nat, evs: seq<Event>)
    requires EventsOk(evs)
  {
    var e := Run(cfg, INITIAL, evs);
    var check := LastHeartbeatCheck(start, evs);
    FirstCheck(cfg, evs).Some? && ActiveBeat(e.actions).None? ==>
      FirstCheck(cfg, evs).value <= check && Waiting(cfg, e.link.lastHeartbeat, FirstCheck(cfg, evs).value, check)
  }

  /** The check at `check` did not send, and has counted at least the time since the check at `first`. */
  ghost predicate Waiting(cfg: Config, stored: Tick, first: nat, check: nat)
  {
    check - first <= Elapsed(Wrap(check), stored) <= cfg.HeartbeatTicks()
  }

  lemma WaitingGoesOn(cfg: Config, d: nat, stored: Tick, first: nat, check: nat, at: nat)
    requires Waiting(cfg, stored, first, check) && check <= at <= check + d
    requires cfg.HeartbeatTicks() + d < TICK_RANGE
    ensures Elapsed(Wrap(at), stored) == Elapsed(Wrap(check), stored) + (at - check)
    ensures at - first <= Elapsed(Wrap(at), stored)
  {
    ElapsedGoesOn(stored, check, at);
  }

  lemma ElapsedGoesOn(stored: Tick, check: nat, at: nat)
    requires check <= at && Elapsed(Wrap(check), stored) + (at - check) < TICK_RANGE
    ensures Elapsed(Wrap(at), stored) == Elapsed(Wrap(check), stored) + (at - check)
  {
    assert Wrap(stored) == stored;
    ElapsedAnyTime(at, stored);
    ElapsedAnyTime(check, stored);
    ElapsedLater(check - stored, at - check);
  }

  lemma ElapsedLater(x: int, more: nat)
    requires x % TICK_RANGE + more < TICK_RANGE
    ensures (x + more) % TICK_RANGE == x % TICK_RANGE + more
  {
    var q := x / TICK_RANGE;
    assert x + more == (x % TICK_RANGE + more) + q * TICK_RANGE;
    ModShift(x % TICK_RANGE + more, q);
  }

  /** Without a connect a session that has ended does not come back. */
  lemma {:induction false} NoReturn(t: Trace)
    requires forall i :: 0 <= i < |t| ==> !t[i].Connecting?
    ensures StateAfter(RpcActive, t) in {RpcActive, Error, Disconnected}
  {
    if t != [] {
      NoReturn(t[..|t| - 1]);
    }
  }

  lemma {:induction false} BeatKept(t: Trace, more: Trace)
    requires StateAfter(Disconnected, t) == RpcActive && StateAfter(RpcActive, more) == RpcActive
    requires forall i :: 0 <= i < |more| ==> !more[i].Beat? && !more[i].Connecting?
    ensures ActiveBeat(t + more) == ActiveBeat(t)
  {
    if more == [] {
      assert t + more == t;
    } else {
      var n := |more| - 1;
      assert (t + more)[..|t| + n] == t + more[..n];
      NoReturn(more[..n]);
      BeatKept(t, more[..n]);
      StateAfterSplit(Disconnected, t, more);
    }
  }

  lemma BeatCounts(t: Trace, at: nat)
    requires StateAfter(Disconnected, t) == RpcActive
    ensures ActiveBeat(t + [Beat(at), Transmitted(Heartbeat)]) == Some(at)
  {
    var t1 := t + [Beat(at)];
    assert t1[..|t|] == t;
    assert StateAfter(Disconnected, t1) == RpcActive && ActiveBeat(t1) == Some(at);
    assert t + [Beat(at), Transmitted(Heartbeat)] == t1 + [Transmitted(Heartbeat)];
    NeutralKeepsState(RpcActive, [Transmitted(Heartbeat)]);
    BeatKept(t1, [Transmitted(Heartbeat)]);
  }

  lemma {:induction false} FirstBeatInvHolds(cfg: Config, start: nat, d: nat, evs: seq<Event>)
    requires EventsOk(evs) && Schedule(start, evs, d) && cfg.HeartbeatTicks() + d < TICK_RANGE
    ensures FirstBeatInv(cfg, start, evs)
  {
    if evs != [] {
      var before, ev := evs[..|evs| - 1], evs[|evs| - 1];
      FirstBeatInvHolds(cfg, start, d, before);
      ChecksBeforeClock(start, before, d);
      RunState(cfg, INITIAL, before);
      RunState(cfg, INITIAL, evs);
      if ev.HeartbeatCheck? {
        FirstBeatInvCheck(cfg, start, d, evs);
      } else {
        FirstBeatInvOther(cfg, start, evs);
      }
    }
  }

  lemma FirstBeatInvCheck(cfg: Config, start: nat, d: nat, evs: seq<Event>)
    requires evs != [] && EventsOk(evs) && evs[|evs| - 1].HeartbeatCheck? && cfg.HeartbeatTicks() + d < TICK_RANGE
    requires var before, at := evs[..|evs| - 1], evs[|evs| - 1].at;
             && FirstBeatInv(cfg, start, before)
             && LastHeartbeatCheck(start, before) <= at <= LastHeartbeatCheck(start, before) + d
    requires var e := Run(cfg, INITIAL, evs[..|evs| - 1]); e.link.state == StateAfter(Disconnected, e.actions)
    ensures FirstBeatInv(cfg, start, evs)
  {
    var before, at := evs[..|evs| - 1], evs[|evs| - 1].at;
    var e := Run(cfg, INITIAL, before);
    if e.link.state == RpcActive {
      if CheckHeartbeat(cfg, e.link, at).actions == [] {
        assert e.actions + [] == e.actions;
        if FirstCheck(cfg, before).Some? && ActiveBeat(e.actions).None? {
          WaitingGoesOn(cfg, d, e.link.lastHeartbeat, FirstCheck(cfg, before).value,
                        LastHeartbeatCheck(start, before), at);
        }
      } else {
        BeatCounts(e.actions, at);
      }
    }
  }

  lemma FirstBeatInvOther(cfg: Config, start: nat, evs: seq<Event>)
    requires evs != [] && EventsOk(evs) && !evs[|evs| - 1].HeartbeatCheck?
    requires FirstBeatInv(cfg, start, evs[..|evs| - 1])
    requires var e := Run(cfg, INITIAL, evs[..|evs| - 1]); e.link.state == StateAfter(Disconnected, e.actions)
    requires var e := Run(cfg, INITIAL, evs); e.link.state == StateAfter(Disconnected, e.actions)
    ensures FirstBeatInv(cfg, start, evs)
  {
    var before, ev := evs[..|evs| - 1], evs[|evs| - 1];
    var e := Run(cfg, INITIAL, before);
    var f := Step(cfg, e.link, ev);
    if FirstCheck(cfg, evs).Some? {
      StepBeats(cfg, e.link, ev);
      StateAfterSplit(Disconnected, e.actions, f.actions);
      BeatKept(e.actions, f.actions);
    }
  }

  /**
   * As long as an active session has not sent its first heartbeat, a check
   * more than 200 ms after the session's first check sends it, and no check
   * comes later than the check interval after that.
   */
  lemma FirstHeartbeatOnTime(cfg: Config, start: nat, d: nat, evs: seq<Event>, at: nat)
    requires EventsOk(evs) && Schedule(start, evs + [HeartbeatCheck(at)], d)
    requires 200 * cfg.tickRateHz + 1000 * d < 1000 * TICK_RANGE
    requires FirstCheck(cfg, evs).Some? && ActiveBeat(Run(cfg, INITIAL, evs).actions).None?
    ensures var l := Run(cfg, INITIAL, evs).link;
            var first := FirstCheck(cfg, evs).value;
            && first <= at
            && (1000 * (at - first) > 200 * cfg.tickRateHz ==>
                  CheckHeartbeat(cfg, l, at).actions == [Beat(at), Transmitted(Heartbeat)])
            && 1000 * (at - first) <= 200 * cfg.tickRateHz + 1000 * d
  {
    LimitInMilliseconds(200, cfg.tickRateHz, cfg.HeartbeatTicks());
    var all := evs + [HeartbeatCheck(at)];
    assert all[..|evs|] == evs;
    FirstBeatInvHolds(cfg, start, d, evs);
    ChecksBeforeClock(start, evs, d);
    var first, check := FirstCheck(cfg, evs).value, LastHeartbeatCheck(start, evs);
    WaitingGoesOn(cfg, d, Run(cfg, INITIAL, evs).link.lastHeartbeat, first, check, at);
  }
}
