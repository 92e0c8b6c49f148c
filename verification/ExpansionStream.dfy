/**
 * What happens to the bytes: none is lost, the frames found depend on the
 * stream alone, every DATA frame of a session is delivered and acknowledged
 * once, and a corrupted frame is never acted upon.
 */
module ExpansionStream {
  import opened Streams
  import opened ExpansionFrames
  import opened ExpansionLink

  type Trace = seq<Action>

  // ----- conservation

  /** The received bytes that an action disposes of. */
  function ActionBytes(a: Action): (r: Bytes)
  {
    match a
    case Skipped(b) => [b]
    case Processed(f, _) => f
    case Connecting(_, dropped) => dropped
    case Closed(dropped) => dropped
    case Expired(_, dropped) => dropped
    case _ => []
  }

  function Accounted(t: Trace): (r: Bytes)
  {
    if t == [] then [] else Accounted(t[..|t| - 1]) + ActionBytes(t[|t| - 1])
  }

  /** All bytes that the UART handed over. */
  function Received(evs: seq<Event>): (r: Bytes)
  {
    if evs == [] then []
    else
      var n := |evs| - 1;
      Received(evs[..n]) + if evs[n].Read? then evs[n].chunk else []
  }

  lemma AccountedSnoc(t: Trace, a: Action)
    ensures Accounted(t + [a]) == Accounted(t) + ActionBytes(a)
  {
    assert (t + [a])[..|t|] == t;
  }

  lemma {:induction false} AccountedSplit(a: Trace, b: Trace)
    ensures Accounted(a + b) == Accounted(a) + Accounted(b)
  {
    if b == [] {
      assert a + b == a;
    } else {
      var init, last := b[..|b| - 1], b[|b| - 1];
      AccountedSplit(a, init);
      assert a + b == (a + init) + [last];
      AccountedSnoc(a + init, last);
      Assoc(Accounted(a), Accounted(init), ActionBytes(last));
    }
  }

  lemma {:induction false} NeutralAccounts(t: Trace)
    requires forall i :: 0 <= i < |t| ==> Neutral(t[i]) && !t[i].Skipped?
    ensures Accounted(t) == [] && ItemsOf(t) == []
  {
    if t != [] {
      NeutralAccounts(t[..|t| - 1]);
    }
  }

  lemma {:induction false} ItemsBytesSnoc(items: seq<Item>, item: Item)
    ensures ItemsBytes(items + [item]) == ItemsBytes(items) + ItemBytes(item)
  {
    if items == [] {
      assert items + [item] == [item];
      assert ItemsBytes([item]) == ItemBytes(item) + ItemsBytes([]);
    } else {
      assert (items + [item])[1..] == items[1..] + [item];
      ItemsBytesSnoc(items[1..], item);
    }
  }

  // ----- the frames and skipped bytes of a trace

  function ItemsOf(t: Trace): (r: seq<Item>)
  {
    if t == [] then []
    else
      var n := |t| - 1;
      ItemsOf(t[..n]) + ItemOfAction(t[n])
  }

  function ItemOfAction(a: Action): (r: seq<Item>)
  {
    match a
    case Skipped(b) => [Skip(b)]
    case Processed(f, _) => [Frame(f)]
    case _ => []
  }

  lemma ItemsOfSnoc(t: Trace, a: Action)
    ensures ItemsOf(t + [a]) == ItemsOf(t) + ItemOfAction(a)
  {
    assert (t + [a])[..|t|] == t;
  }

  lemma {:induction false} ItemsOfSplit(a: Trace, b: Trace)
    ensures ItemsOf(a + b) == ItemsOf(a) + ItemsOf(b)
  {
    if b == [] {
      assert a + b == a;
    } else {
      var init, last := b[..|b| - 1], b[|b| - 1];
      ItemsOfSplit(a, init);
      assert a + b == (a + init) + [last];
      ItemsOfSnoc(a + init, last);
      Assoc(ItemsOf(a), ItemsOf(init), ItemOfAction(last));
    }
  }

  /** No connect, disconnect or watchdog firing emptied the assembly buffer. */
  ghost predicate NoReset(t: Trace)
  {
    forall i :: 0 <= i < |t| ==> !t[i].Connecting? && !t[i].Closed? && !t[i].Expired?
  }

  lemma SingleTrace(a: Action)
    ensures Accounted([a]) == ActionBytes(a)
    ensures ItemsOf([a]) == ItemOfAction(a)
  {
    assert [a][..0] == [];
  }

  /** The actions of process_frame itself take nothing from the buffer. */
  lemma FrameTrace(cfg: Config, l: Link, f: Bytes, at: nat)
    requires Sized(f)
    ensures var t := ProcessFrame(cfg, l, f, at).actions; ItemsOf(t) == [] && NoReset(t)
  {
    NeutralAccounts(ProcessFrame(cfg, l, f, at).actions);
  }

  lemma ApplyItemTrace(cfg: Config, l: Link, item: Item, at: nat)
    requires item.Frame? ==> Sized(item.bytes)
    ensures var t := ApplyItem(cfg, l, item, at).actions; ItemsOf(t) == [item] && NoReset(t)
  {
    match item
    case Skip(b) =>
      SingleTrace(Skipped(b));
    case Frame(f) =>
      var rest := ProcessFrame(cfg, l, f, at).actions;
      SingleTrace(Processed(f, at));
      ItemsOfSplit([Processed(f, at)], rest);
      FrameTrace(cfg, l, f, at);
  }

  /** The last item of a list acts on the link that the earlier ones leave. */
  lemma LastItemTrace(cfg: Config, l: Link, items: seq<Item>, at: nat) returns (before: Trace, after: Trace)
    requires ItemsSized(items) && items != []
    ensures before == ApplyItems(cfg, l, items[..|items| - 1], at).actions
    ensures before + after == ApplyItems(cfg, l, items, at).actions
    ensures ItemsOf(after) == [items[|items| - 1]] && NoReset(after)
  {
    var e := ApplyItems(cfg, l, items[..|items| - 1], at);
    before, after := e.actions, ApplyItem(cfg, e.link, items[|items| - 1], at).actions;
    ApplyItemTrace(cfg, e.link, items[|items| - 1], at);
  }

  lemma {:induction false} ApplyItemsTrace(cfg: Config, l: Link, items: seq<Item>, at: nat) returns (t: Trace)
    requires ItemsSized(items)
    ensures t == ApplyItems(cfg, l, items, at).actions
    ensures ItemsOf(t) == items && NoReset(t)
  {
    if items == [] {
      t := [];
    } else {
      var n := |items| - 1;
      var t0 := ApplyItemsTrace(cfg, l, items[..n], at);
      var before, after := LastItemTrace(cfg, l, items, at);
      TraceJoin(before, after, items, n);
      t := before + after;
    }
  }

  lemma SnocBack<T>(s: seq<T>, n: nat)
    requires n + 1 == |s|
    ensures s == s[..n] + [s[n]]
  {
  }

  lemma TraceJoin(a: Trace, b: Trace, items: seq<Item>, n: nat)
    requires n + 1 == |items| && ItemsOf(a) == items[..n] && ItemsOf(b) == [items[n]]
    requires NoReset(a) && NoReset(b)
    ensures ItemsOf(a + b) == items && NoReset(a + b)
  {
    ItemsOfSplit(a, b);
    SnocBack(items, n);
    NoResetJoin(a, b);
  }

  /** Without a reset, bytes leave the buffer only in frames and one at a time. */
  lemma {:induction false} AccountedItems(t: Trace)
    requires NoReset(t)
    ensures Accounted(t) == ItemsBytes(ItemsOf(t))
  {
    if t != [] {
      var n := |t| - 1;
      AccountedItems(t[..n]);
      if t[n].Skipped? || t[n].Processed? {
        ItemsBytesSnoc(ItemsOf(t[..n]), ItemOfAction(t[n])[0]);
      } else {
        assert ItemsOf(t) == ItemsOf(t[..n]);
      }
    }
  }

  lemma NoResetJoin(a: Trace, b: Trace)
    ensures NoReset(a + b) <==> NoReset(a) && NoReset(b)
  {
    if NoReset(a + b) {
      assert forall i :: 0 <= i < |a| ==> (a + b)[i] == a[i];
      assert forall i :: 0 <= i < |b| ==> (a + b)[|a| + i] == b[i];
    }
  }

  lemma ReceiveTrace(cfg: Config, l: Link, chunk: Bytes, at: nat)
    requires Parked(l) && |chunk| <= READ_SIZE
    ensures var e := Receive(cfg, l, chunk, at);
            && Parsed(ItemsOf(e.actions), e.link.rx) == Parse(l.rx + chunk)
            && Accounted(e.actions) + e.link.rx == l.rx + chunk
            && NoReset(e.actions)
  {
    var s := l.rx + chunk;
    assert Taken(l, chunk) == chunk;
    ParseSized(s);
    var t := ApplyItemsTrace(cfg, l, Parse(s).items, at);
    AccountedItems(t);
    ParseConserves(s);
  }

  lemma PairTrace(a: Action, b: Action)
    ensures Accounted([a, b]) == ActionBytes(a) + ActionBytes(b)
    ensures ItemsOf([a, b]) == ItemOfAction(a) + ItemOfAction(b)
  {
    SingleTrace(a);
    assert [a, b][..1] == [a];
  }

  lemma DisconnectTrace(l: Link)
    ensures var e := DisconnectLink(l);
            ItemsOf(e.actions) == [] && Accounted(e.actions) == l.rx && !NoReset(e.actions)
  {
    var stop := if l.state == RpcActive then [Transmitted(Control(STOP_RPC))] else [];
    var close := [Closed(l.rx), BaudSet(INITIAL_BAUD)];
    NeutralAccounts(stop);
    PairTrace(Closed(l.rx), BaudSet(INITIAL_BAUD));
    AccountedSplit(stop, close);
    ItemsOfSplit(stop, close);
    NoResetJoin(stop, close);
    assert close[0].Closed?;
  }

  /** What an event that reads nothing does to the buffer: keep it, or drop it and say so. */
  ghost predicate KeepsOrDrops(l: Link, e: Effect)
  {
    && ItemsOf(e.actions) == []
    && Accounted(e.actions) + e.link.rx == l.rx
    && (NoReset(e.actions) ==> e.link.rx == l.rx)
  }

  lemma ConnectTrace(l: Link, at: nat)
    ensures KeepsOrDrops(l, ConnectLink(l, at))
  {
    var t := ConnectLink(l, at).actions;
    if t != [] {
      assert t[1].Connecting?;
      PairTrace(BaudSet(INITIAL_BAUD), Connecting(at, l.rx));
    }
  }

  lemma WatchdogTrace(cfg: Config, l: Link, at: nat)
    ensures KeepsOrDrops(l, CheckWatchdog(cfg, l, at))
  {
    var t := CheckWatchdog(cfg, l, at).actions;
    if t != [] {
      assert t[0].Expired?;
      SingleTrace(Expired(at, l.rx));
    }
  }

  lemma OtherTrace(cfg: Config, l: Link, ev: Event)
    requires Parked(l) && !ev.Read?
    ensures KeepsOrDrops(l, Step(cfg, l, ev))
  {
    match ev
    case Disconnect => DisconnectTrace(l);
    case Connect(at) => ConnectTrace(l, at);
    case WatchdogCheck(at) => WatchdogTrace(cfg, l, at);
    case HeartbeatCheck(at) => NeutralAccounts(CheckHeartbeat(cfg, l, at).actions);
    case Send(data) => NeutralAccounts(BeginSend(l, data).actions);
    case Pass(i, taken) => NeutralAccounts(SendPass(l, i, taken).actions);
  }

  /** One event disposes of its own bytes and of what was buffered, or keeps them. */
  lemma StepConserves(cfg: Config, l: Link, ev: Event)
    requires Parked(l) && EventOk(ev)
    ensures var e := Step(cfg, l, ev);
            Accounted(e.actions) + e.link.rx == l.rx + (if ev.Read? then ev.chunk else [])
  {
    if ev.Read? {
      ReceiveTrace(cfg, l, ev.chunk, ev.at);
    } else {
      OtherTrace(cfg, l, ev);
    }
  }

  /**
   * Over any run, what was received is exactly what was skipped, processed or
   * dropped at a reset, in that order, followed by what is still buffered.
   */
  lemma {:induction false} BytesConserved(cfg: Config, l: Link, evs: seq<Event>)
    requires Parked(l) && EventsOk(evs)
    ensures var e := Run(cfg, l, evs); Accounted(e.actions) + e.link.rx == l.rx + Received(evs)
  {
    if evs != [] {
      var n := |evs| - 1;
      BytesConserved(cfg, l, evs[..n]);
      var e := Run(cfg, l, evs[..n]);
      var f := Step(cfg, e.link, evs[n]);
      var more := if evs[n].Read? then evs[n].chunk else [];
      StepConserves(cfg, e.link, evs[n]);
      calc {
        Accounted(e.actions + f.actions) + f.link.rx;
        { AccountedSplit(e.actions, f.actions); Assoc(Accounted(e.actions), Accounted(f.actions), f.link.rx); }
        Accounted(e.actions) + (e.link.rx + more);
        { Assoc(Accounted(e.actions), e.link.rx, more); }
        (l.rx + Received(evs[..n])) + more;
        { Assoc(l.rx, Received(evs[..n]), more); }
        l.rx + Received(evs);
      }
    }
  }

  lemma StreamDecidesStep(cfg: Config, l: Link, ev: Event, s: Bytes, items: seq<Item>)
    requires Parked(l) && EventOk(ev) && NoReset(Step(cfg, l, ev).actions)
    requires Parse(s) == Parsed(items, l.rx)
    ensures var e := Step(cfg, l, ev);
            Parse(s + (if ev.Read? then ev.chunk else [])) == Parsed(items + ItemsOf(e.actions), e.link.rx)
  {
    if ev.Read? {
      ReceiveTrace(cfg, l, ev.chunk, ev.at);
      ParseResumes(s, ev.chunk);
    } else {
      OtherTrace(cfg, l, ev);
      assert s + [] == s;
    }
  }

  /**
   * Between two buffer resets, the frames processed, the bytes skipped and
   * what stays buffered are those of the one-shot parser on the concatenated
   * stream, however the reads cut it and whatever else runs in between.
   */
  lemma {:induction false} StreamDecides(cfg: Config, l: Link, evs: seq<Event>)
    requires Parked(l) && EventsOk(evs) && NoReset(Run(cfg, l, evs).actions)
    ensures var e := Run(cfg, l, evs); Parse(l.rx + Received(evs)) == Parsed(ItemsOf(e.actions), e.link.rx)
  {
    if evs == [] {
      assert l.rx + Received(evs) == l.rx;
    } else {
      var n := |evs| - 1;
      var e := Run(cfg, l, evs[..n]);
      var f := Step(cfg, e.link, evs[n]);
      NoResetJoin(e.actions, f.actions);
      StreamDecides(cfg, l, evs[..n]);
      ItemsOfSplit(e.actions, f.actions);
      StreamDecidesStep(cfg, e.link, evs[n], l.rx + Received(evs[..n]), ItemsOf(e.actions));
      Assoc(l.rx, Received(evs[..n]), if evs[n].Read? then evs[n].chunk else []);
    }
  }

  /** The same stream cut differently, at different times, yields the same frames. */
  lemma ChunkingIsIrrelevant(cfg: Config, l: Link, evs: seq<Event>, evs': seq<Event>)
    requires Parked(l) && EventsOk(evs) && EventsOk(evs')
    requires NoReset(Run(cfg, l, evs).actions) && NoReset(Run(cfg, l, evs').actions)
    requires Received(evs) == Received(evs')
    ensures ItemsOf(Run(cfg, l, evs).actions) == ItemsOf(Run(cfg, l, evs').actions)
    ensures Run(cfg, l, evs).link.rx == Run(cfg, l, evs').link.rx
  {
    StreamDecides(cfg, l, evs);
    StreamDecides(cfg, l, evs');
  }

  // ----- deliveries and acknowledgements

  /** RPC bytes handed to the callback, STATUS frames written, and all other frames and rate changes but DATA. */
  datatype Tally = Tally(delivered: Bytes, acks: seq<Message>, control: seq<Action>)

  const ZERO := Tally([], [], [])

  function Plus(x: Tally, y: Tally): (r: Tally)
  {
    Tally(x.delivered + y.delivered, x.acks + y.acks, x.control + y.control)
  }

  function OneControl(a: Action): (r: Tally) { Tally([], [], [a]) }

  function TwoControls(a: Action, b: Action): (r: Tally) { Tally([], [], [a, b]) }

  /** What the link did. */
  function Done(t: Trace): (r: Tally)
  {
    if t == [] then ZERO
    else
      var n := |t| - 1;
      Plus(Done(t[..n]), DoneBy(t[n]))
  }

  function DoneBy(a: Action): (r: Tally)
  {
    match a
    case Delivered(p) => Tally(p, [], [])
    case Transmitted(m) => if m.Status? then Tally([], [m], []) else if m.Data? then ZERO else OneControl(a)
    case BaudSet(_) => OneControl(a)
    case _ => ZERO
  }

  /** What the protocol asks for when something happens in state `s`. */
  function OwedFor(cfg: Config, s: State, a: Action): (r: Tally)
  {
    match a
    case Beat(_) => OneControl(Transmitted(Heartbeat))
    case Connecting(_, _) => OneControl(BaudSet(INITIAL_BAUD))
    case Closed(_) =>
      if s == RpcActive then TwoControls(Transmitted(Control(STOP_RPC)), BaudSet(INITIAL_BAUD))
      else OneControl(BaudSet(INITIAL_BAUD))
    case Processed(f, _) => if Intact(f) then OwedForFrame(cfg, s, f) else ZERO
    case _ => ZERO
  }

  function OwedForFrame(cfg: Config, s: State, f: Bytes): (r: Tally)
    requires Intact(f)
  {
    if s == AwaitingHeartbeat && f[0] == HEARTBEAT then OneControl(Transmitted(BaudRate(cfg.targetBaud)))
    else if s == BaudNegotiation && f[0] == STATUS && f[1] == STATUS_OK then
      TwoControls(BaudSet(cfg.targetBaud), Transmitted(Control(START_RPC)))
    else if s == BaudNegotiation && f[0] == STATUS && f[1] == STATUS_ERROR_BAUD_RATE then
      OneControl(Transmitted(Control(START_RPC)))
    else if s == RpcActive && f[0] == DATA then
      Tally(if cfg.callback then Payload(f) else [], [Status(STATUS_OK)], [])
    else if s == RpcActive && f[0] == HEARTBEAT then OneControl(Transmitted(Heartbeat))
    else ZERO
  }

  /** What everything that happened calls for. */
  function Owed(cfg: Config, s: State, t: Trace): (r: Tally)
  {
    if t == [] then ZERO
    else
      var n := |t| - 1;
      Plus(Owed(cfg, s, t[..n]), OwedFor(cfg, StateAfter(s, t[..n]), t[n]))
  }

  lemma PlusLaws(x: Tally, y: Tally, z: Tally)
    ensures Plus(Plus(x, y), z) == Plus(x, Plus(y, z))
    ensures Plus(x, ZERO) == x && Plus(ZERO, x) == x
  {
    assert (x.delivered + y.delivered) + z.delivered == x.delivered + (y.delivered + z.delivered);
    assert (x.acks + y.acks) + z.acks == x.acks + (y.acks + z.acks);
    assert (x.control + y.control) + z.control == x.control + (y.control + z.control);
  }

  lemma {:induction false} DoneSplit(a: Trace, b: Trace)
    ensures Done(a + b) == Plus(Done(a), Done(b))
  {
    if b == [] {
      assert a + b == a;
    } else {
      var n := |b| - 1;
      assert (a + b)[..|a| + n] == a + b[..n];
      DoneSplit(a, b[..n]);
      PlusLaws(Done(a), Done(b[..n]), DoneBy(b[n]));
    }
  }

  lemma OwedSnoc(cfg: Config, s: State, t: Trace, a: Action)
    ensures Owed(cfg, s, t + [a]) == Plus(Owed(cfg, s, t), OwedFor(cfg, StateAfter(s, t), a))
  {
    assert (t + [a])[..|t|] == t;
  }

  lemma {:induction false} OwedSplit(cfg: Config, s: State, a: Trace, b: Trace)
    ensures Owed(cfg, s, a + b) == Plus(Owed(cfg, s, a), Owed(cfg, StateAfter(s, a), b))
  {
    if b == [] {
      assert a + b == a;
      PlusLaws(Owed(cfg, s, a), ZERO, ZERO);
    } else {
      var init, last := b[..|b| - 1], b[|b| - 1];
      assert b == init + [last];
      Assoc(a, init, [last]);
      OwedSplit(cfg, s, a, init);
      StateAfterSplit(s, a, init);
      OwedSnoc(cfg, s, a + init, last);
      OwedSnoc(cfg, StateAfter(s, a), init, last);
      PlusLaws(Owed(cfg, s, a), Owed(cfg, StateAfter(s, a), init), OwedFor(cfg, StateAfter(s, a + init), last));
    }
  }

  /** Actions that are only ever answers: nothing is owed for them. */
  predicate IsAnswer(a: Action)
  {
    a.Transmitted? || a.Delivered? || a.BaudSet? || a.Skipped? || a.Dropped?
  }

  lemma {:induction false} NothingOwed(cfg: Config, s: State, t: Trace)
    requires forall i :: 0 <= i < |t| ==> IsAnswer(t[i]) || t[i].Expired?
    ensures Owed(cfg, s, t) == ZERO
  {
    if t != [] {
      NothingOwed(cfg, s, t[..|t| - 1]);
    }
  }

  lemma {:induction false} NothingDone(t: Trace)
    requires forall i :: 0 <= i < |t| ==> DoneBy(t[i]) == ZERO
    ensures Done(t) == ZERO
  {
    if t != [] {
      NothingDone(t[..|t| - 1]);
    }
  }

  lemma SingleDone(a: Action)
    ensures Done([a]) == DoneBy(a)
  {
    assert [a][..0] == [];
    PlusLaws(DoneBy(a), ZERO, ZERO);
  }

  lemma PairDone(a: Action, b: Action)
    ensures Done([a, b]) == Plus(DoneBy(a), DoneBy(b))
  {
    SingleDone(a);
    assert [a, b][..1] == [a];
  }

  /** A list of one or two answers, or none, that fits what is owed. */
  lemma AnswersFit(answers: seq<Action>, owed: Tally)
    requires || (answers == [] && owed == ZERO)
             || (|answers| == 1 && owed == DoneBy(answers[0]))
             || (|answers| == 2 && owed == Plus(DoneBy(answers[0]), DoneBy(answers[1])))
    ensures Done(answers) == owed
  {
    if |answers| == 1 {
      assert answers == [answers[0]];
      SingleDone(answers[0]);
    } else if |answers| == 2 {
      assert answers == [answers[0], answers[1]];
      PairDone(answers[0], answers[1]);
    }
  }

  lemma FramePaid(cfg: Config, l: Link, f: Bytes, at: nat)
    requires Sized(f)
    ensures Done(ProcessFrame(cfg, l, f, at).actions) == OwedFor(cfg, l.state, Processed(f, at))
  {
    AnswersFit(ProcessFrame(cfg, l, f, at).actions, OwedFor(cfg, l.state, Processed(f, at)));
  }

  lemma SingleOwed(cfg: Config, s: State, a: Action)
    ensures Owed(cfg, s, [a]) == OwedFor(cfg, s, a)
  {
    assert [a][..0] == [];
    PlusLaws(OwedFor(cfg, s, a), ZERO, ZERO);
  }

  /** If the answers after an action settle what it calls for, the account is even. */
  lemma Settled(cfg: Config, s: State, a: Action, rest: Trace)
    requires DoneBy(a) == ZERO && Done(rest) == OwedFor(cfg, s, a)
    requires forall i :: 0 <= i < |rest| ==> IsAnswer(rest[i])
    ensures Done([a] + rest) == Owed(cfg, s, [a] + rest)
  {
    DoneSplit([a], rest);
    SingleDone(a);
    OwedSplit(cfg, s, [a], rest);
    SingleOwed(cfg, s, a);
    NothingOwed(cfg, StateAfter(s, [a]), rest);
    PlusLaws(OwedFor(cfg, s, a), ZERO, ZERO);
  }

  lemma ItemPaid(cfg: Config, l: Link, item: Item, at: nat)
    requires item.Frame? ==> Sized(item.bytes)
    ensures var t := ApplyItem(cfg, l, item, at).actions; Done(t) == Owed(cfg, l.state, t)
  {
    match item
    case Skip(b) =>
      NothingDone([Skipped(b)]);
      NothingOwed(cfg, l.state, [Skipped(b)]);
    case Frame(f) =>
      FramePaid(cfg, l, f, at);
      FrameAnswers(cfg, l, f, at);
      Settled(cfg, l.state, Processed(f, at), ProcessFrame(cfg, l, f, at).actions);
  }

  lemma FrameAnswers(cfg: Config, l: Link, f: Bytes, at: nat)
    requires Sized(f)
    ensures var t := ProcessFrame(cfg, l, f, at).actions; forall i :: 0 <= i < |t| ==> IsAnswer(t[i])
  {
  }

  lemma LastItemPaid(cfg: Config, l: Link, items: seq<Item>, at: nat) returns (e: Effect, step: Effect)
    requires ItemsSized(items) && items != []
    ensures e == ApplyItems(cfg, l, items[..|items| - 1], at) && ApplyItems(cfg, l, items, at) == Then(e, step)
    ensures e.link.state == StateAfter(l.state, e.actions)
    ensures Done(step.actions) == Owed(cfg, e.link.state, step.actions)
  {
    e := ApplyItems(cfg, l, items[..|items| - 1], at);
    step := ApplyItem(cfg, e.link, items[|items| - 1], at);
    ApplyItemsState(cfg, l, items[..|items| - 1], at);
    ItemPaid(cfg, e.link, items[|items| - 1], at);
  }

  lemma {:induction false} ItemsPaid(cfg: Config, l: Link, items: seq<Item>, at: nat)
    requires ItemsSized(items)
    ensures var t := ApplyItems(cfg, l, items, at).actions; Done(t) == Owed(cfg, l.state, t)
  {
    if items != [] {
      ItemsPaid(cfg, l, items[..|items| - 1], at);
      var e, step := LastItemPaid(cfg, l, items, at);
      DoneSplit(e.actions, step.actions);
      OwedSplit(cfg, l.state, e.actions, step.actions);
    }
  }

  lemma BeatPaid(cfg: Config, s: State, at: nat)
    ensures var t := [Beat(at), Transmitted(Heartbeat)]; Done(t) == Owed(cfg, s, t)
  {
    SingleDone(Transmitted(Heartbeat));
    Settled(cfg, s, Beat(at), [Transmitted(Heartbeat)]);
    assert [Beat(at)] + [Transmitted(Heartbeat)] == [Beat(at), Transmitted(Heartbeat)];
  }

  lemma HeartbeatPaid(cfg: Config, l: Link, at: nat)
    ensures var t := CheckHeartbeat(cfg, l, at).actions; Done(t) == Owed(cfg, l.state, t)
  {
    BeatPaid(cfg, l.state, at);
  }

  /** An answer in front of a trace calls for nothing more. */
  lemma AnswerFirst(cfg: Config, s: State, answer: Action, rest: Trace)
    requires IsAnswer(answer)
    ensures Owed(cfg, s, [answer] + rest) == Owed(cfg, s, rest)
  {
    OwedSplit(cfg, s, [answer], rest);
    NothingOwed(cfg, s, [answer]);
    NeutralKeepsState(s, [answer]);
    PlusLaws(Owed(cfg, s, rest), ZERO, ZERO);
  }

  lemma ConnectingPaid(cfg: Config, s: State, mark: Action)
    requires mark.Connecting?
    ensures var t := [BaudSet(INITIAL_BAUD), mark]; Done(t) == Owed(cfg, s, t)
  {
    var rate := BaudSet(INITIAL_BAUD);
    AnswerFirst(cfg, s, rate, [mark]);
    SingleOwed(cfg, s, mark);
    assert [rate] + [mark] == [rate, mark];
    PairDone(rate, mark);
    PlusLaws(OneControl(rate), ZERO, ZERO);
  }

  lemma ConnectPaid(cfg: Config, l: Link, at: nat)
    ensures var t := ConnectLink(l, at).actions; Done(t) == Owed(cfg, l.state, t)
  {
    ConnectingPaid(cfg, l.state, Connecting(at, l.rx));
  }

  lemma ClosePaid(cfg: Config, s: State, dropped: Bytes)
    ensures var close := [Closed(dropped), BaudSet(INITIAL_BAUD)];
            && Done(close) == OneControl(BaudSet(INITIAL_BAUD))
            && Owed(cfg, s, close) == OwedFor(cfg, s, Closed(dropped))
  {
    var mark, rate := Closed(dropped), BaudSet(INITIAL_BAUD);
    PairDone(mark, rate);
    SingleOwed(cfg, s, mark);
    NothingOwed(cfg, StateAfter(s, [mark]), [rate]);
    OwedSplit(cfg, s, [mark], [rate]);
    assert [mark] + [rate] == [mark, rate];
    PlusLaws(OwedFor(cfg, s, mark), ZERO, ZERO);
    PlusLaws(OneControl(rate), ZERO, ZERO);
  }

  lemma DisconnectPaid(cfg: Config, l: Link)
    ensures var t := DisconnectLink(l).actions; Done(t) == Owed(cfg, l.state, t)
  {
    var close := [Closed(l.rx), BaudSet(INITIAL_BAUD)];
    ClosePaid(cfg, l.state, l.rx);
    if l.state == RpcActive {
      StopPaid(cfg, Transmitted(Control(STOP_RPC)), close);
    } else {
      assert [] + close == close;
    }
  }

  lemma StopPaid(cfg: Config, stop: Action, close: Trace)
    requires stop == Transmitted(Control(STOP_RPC)) && Done(close) == OneControl(BaudSet(INITIAL_BAUD))
    requires Owed(cfg, RpcActive, close) == TwoControls(stop, BaudSet(INITIAL_BAUD))
    ensures Done([stop] + close) == Owed(cfg, RpcActive, [stop] + close)
  {
    StopDone(stop, close);
    AnswerFirst(cfg, RpcActive, stop, close);
  }

  lemma StopDone(stop: Action, close: Trace)
    requires DoneBy(stop) == OneControl(stop) && Done(close) == OneControl(BaudSet(INITIAL_BAUD))
    ensures Done([stop] + close) == TwoControls(stop, BaudSet(INITIAL_BAUD))
  {
    DoneSplit([stop], close);
    SingleDone(stop);
  }

  lemma ReadPaid(cfg: Config, l: Link, chunk: Bytes, at: nat)
    requires Parked(l)
    ensures var t := Receive(cfg, l, chunk, at).actions; Done(t) == Owed(cfg, l.state, t)
  {
    ParseSized(l.rx + Taken(l, chunk));
    ItemsPaid(cfg, l, Parse(l.rx + Taken(l, chunk)).items, at);
  }

  /** Neither the watchdog nor forwarded data call for anything. */
  lemma QuietPaid(cfg: Config, s: State, t: Trace)
    requires forall i :: 0 <= i < |t| ==> t[i].Expired? || t[i].Dropped? || (t[i].Transmitted? && t[i].message.Data?)
    ensures Done(t) == Owed(cfg, s, t)
  {
    NothingDone(t);
    NothingOwed(cfg, s, t);
  }

  lemma StepPaid(cfg: Config, l: Link, ev: Event)
    requires Parked(l)
    ensures var t := Step(cfg, l, ev).actions; Done(t) == Owed(cfg, l.state, t)
  {
    match ev
    case Read(chunk, at) => ReadPaid(cfg, l, chunk, at);
    case HeartbeatCheck(at) => HeartbeatPaid(cfg, l, at);
    case Connect(at) => ConnectPaid(cfg, l, at);
    case Disconnect => DisconnectPaid(cfg, l);
    case WatchdogCheck(at) => QuietPaid(cfg, l.state, CheckWatchdog(cfg, l, at).actions);
    case Send(data) => QuietPaid(cfg, l.state, BeginSend(l, data).actions);
    case Pass(i, taken) => QuietPaid(cfg, l.state, SendPass(l, i, taken).actions);
  }

  /**
   * In every run, the bytes delivered are the payloads of the intact DATA
   * frames processed while the session was active, in order, and exactly one
   * STATUS OK, and no other STATUS, was written for each of them. Everything
   * else the link writes, apart from forwarded data, is what the protocol asks
   * for at that point, in order: the rate request for the first heartbeat, the
   * rate switch before the session request, heartbeats for heartbeats and when
   * the timer is due, the stop before a session is closed.
   */
  lemma {:induction false} ProtocolIsFollowed(cfg: Config, l: Link, evs: seq<Event>)
    requires Parked(l) && EventsOk(evs)
    ensures var t := Run(cfg, l, evs).actions; Done(t) == Owed(cfg, l.state, t)
  {
    if evs != [] {
      var n := |evs| - 1;
      ProtocolIsFollowed(cfg, l, evs[..n]);
      var e := Run(cfg, l, evs[..n]);
      RunState(cfg, l, evs[..n]);
      StepPaid(cfg, e.link, evs[n]);
      var t := Step(cfg, e.link, evs[n]).actions;
      DoneSplit(e.actions, t);
      OwedSplit(cfg, l.state, e.actions, t);
    }
  }

  /** Whatever is handed to the callback is acknowledged right afterwards. */
  ghost predicate AckedNext(t: Trace)
  {
    forall i :: 0 <= i < |t| && t[i].Delivered? ==> i + 1 < |t| && t[i + 1] == Transmitted(Status(STATUS_OK))
  }

  lemma AckedNextJoin(a: Trace, b: Trace)
    requires AckedNext(a) && AckedNext(b)
    ensures AckedNext(a + b)
  {
  }

  lemma ItemAckedNext(cfg: Config, l: Link, item: Item, at: nat)
    requires item.Frame? ==> Sized(item.bytes)
    ensures AckedNext(ApplyItem(cfg, l, item, at).actions)
  {
  }

  lemma {:induction false} ItemsAckedNext(cfg: Config, l: Link, items: seq<Item>, at: nat)
    requires ItemsSized(items)
    ensures AckedNext(ApplyItems(cfg, l, items, at).actions)
  {
    if items != [] {
      var n := |items| - 1;
      ItemsAckedNext(cfg, l, items[..n], at);
      var e := ApplyItems(cfg, l, items[..n], at);
      ItemAckedNext(cfg, e.link, items[n], at);
      AckedNextJoin(e.actions, ApplyItem(cfg, e.link, items[n], at).actions);
    }
  }

  /** In every run each delivery comes before its acknowledgement, with nothing in between. */
  lemma {:induction false} DeliveryIsAckedNext(cfg: Config, l: Link, evs: seq<Event>)
    requires Parked(l) && EventsOk(evs)
    ensures AckedNext(Run(cfg, l, evs).actions)
  {
    if evs != [] {
      var n := |evs| - 1;
      DeliveryIsAckedNext(cfg, l, evs[..n]);
      var e := Run(cfg, l, evs[..n]);
      if evs[n].Read? {
        ReadAckedNext(cfg, e.link, evs[n].chunk, evs[n].at);
      }
      AckedNextJoin(e.actions, Step(cfg, e.link, evs[n]).actions);
    }
  }

  lemma ReadAckedNext(cfg: Config, l: Link, chunk: Bytes, at: nat)
    requires Parked(l)
    ensures AckedNext(Receive(cfg, l, chunk, at).actions)
  {
    ParseSized(l.rx + Taken(l, chunk));
    ItemsAckedNext(cfg, l, Parse(l.rx + Taken(l, chunk)).items, at);
  }

  // ----- a session that carries frames

  /** The payloads of the DATA frames in a list of frames. */
  function Payloads(frames: seq<Bytes>): (r: Bytes)
    requires AllIntact(frames)
  {
    if frames == [] then []
    else
      var n := |frames| - 1;
      assert Intact(frames[n]);
      Payloads(frames[..n]) + PayloadOf(frames[n])
  }

  function PayloadOf(frame: Bytes): (r: Bytes)
    requires Intact(frame)
  {
    if frame[0] == DATA then Payload(frame) else []
  }

  function AcksFor(frames: seq<Bytes>): (r: seq<Message>)
    requires AllIntact(frames)
  {
    if frames == [] then []
    else
      var n := |frames| - 1;
      assert Intact(frames[n]);
      AcksFor(frames[..n]) + AckOf(frames[n])
  }

  function AckOf(frame: Bytes): (r: seq<Message>)
    requires Intact(frame)
  {
    if frame[0] == DATA then [Status(STATUS_OK)] else []
  }

  lemma ItemsOfLast(t: Trace, frames: seq<Bytes>)
    requires t != [] && ItemsOf(t) == FrameItems(frames)
    ensures var n := |t| - 1;
            if t[n].Processed? then
              && frames != [] && t[n].frame == frames[|frames| - 1]
              && ItemsOf(t[..n]) == FrameItems(frames[..|frames| - 1])
            else !t[n].Skipped? && ItemsOf(t[..n]) == FrameItems(frames)
  {
    var n := |t| - 1;
    var items := ItemsOf(t);
    if t[n].Processed? || t[n].Skipped? {
      var m := |frames| - 1;
      assert items[m] == ItemOfAction(t[n])[0] == Frame(frames[m]);
      assert ItemsOf(t[..n]) == items[..m];
      assert FrameItems(frames[..m]) == FrameItems(frames)[..m];
    }
  }

  /** What one action adds to the account of a session that goes on. */
  lemma SessionAction(cfg: Config, a: Action)
    requires !a.Connecting? && !a.Closed? && !a.Expired? && (a.Processed? ==> Intact(a.frame))
    ensures After(RpcActive, a) == RpcActive
    ensures OwedFor(cfg, RpcActive, a).delivered == if a.Processed? && cfg.callback then PayloadOf(a.frame) else []
    ensures OwedFor(cfg, RpcActive, a).acks == if a.Processed? then AckOf(a.frame) else []
  {
  }

  lemma SessionGoesOn(cfg: Config, t: Trace, a: Action, delivered: Bytes, acks: seq<Message>)
    requires StateAfter(RpcActive, t) == RpcActive
    requires Owed(cfg, RpcActive, t).delivered == delivered && Owed(cfg, RpcActive, t).acks == acks
    requires !a.Connecting? && !a.Closed? && !a.Expired? && (a.Processed? ==> Intact(a.frame))
    ensures StateAfter(RpcActive, t + [a]) == RpcActive
    ensures Owed(cfg, RpcActive, t + [a]).delivered
         == delivered + if a.Processed? && cfg.callback then PayloadOf(a.frame) else []
    ensures Owed(cfg, RpcActive, t + [a]).acks == acks + if a.Processed? then AckOf(a.frame) else []
  {
    assert (t + [a])[..|t|] == t;
    SessionAction(cfg, a);
  }

  lemma {:induction false} SessionOwes(cfg: Config, t: Trace, frames: seq<Bytes>)
    requires NoReset(t) && ItemsOf(t) == FrameItems(frames)
    requires AllIntact(frames)
    ensures StateAfter(RpcActive, t) == RpcActive
    ensures Owed(cfg, RpcActive, t).delivered == if cfg.callback then Payloads(frames) else []
    ensures Owed(cfg, RpcActive, t).acks == AcksFor(frames)
  {
    if t == [] {
      assert frames == [];
    } else {
      var init, last := t[..|t| - 1], t[|t| - 1];
      assert t == init + [last];
      ItemsOfLast(t, frames);
      var earlier := if last.Processed? then frames[..|frames| - 1] else frames;
      assert last.Processed? ==> Intact(frames[|frames| - 1]);
      SessionOwes(cfg, init, earlier);
      SessionGoesOn(cfg, init, last, if cfg.callback then Payloads(earlier) else [], AcksFor(earlier));
    }
  }

  /**
   * An active session that receives the bytes of intact frames, cut in any way
   * and interleaved with any sends and timer checks, stays active, delivers
   * their payloads in order and acknowledges each DATA frame once.
   */
  lemma SessionCarries(cfg: Config, l: Link, evs: seq<Event>, frames: seq<Bytes>)
    requires Parked(l) && l.rx == [] && l.state == RpcActive && cfg.callback && EventsOk(evs)
    requires AllIntact(frames)
    requires Received(evs) == Concat(frames) && NoReset(Run(cfg, l, evs).actions)
    ensures var e := Run(cfg, l, evs);
            && e.link.state == RpcActive
            && e.link.rx == []
            && Done(e.actions).delivered == Payloads(frames)
            && Done(e.actions).acks == AcksFor(frames)
  {
    var t := Run(cfg, l, evs).actions;
    StreamDecides(cfg, l, evs);
    assert l.rx + Received(evs) == Concat(frames);
    ParseFrames(frames);
    SessionOwes(cfg, t, frames);
    RunState(cfg, l, evs);
    ProtocolIsFollowed(cfg, l, evs);
  }

  lemma PayloadsSnoc(frames: seq<Bytes>, frame: Bytes)
    requires AllIntact(frames) && Intact(frame)
    ensures AllIntact(frames + [frame])
    ensures Payloads(frames + [frame]) == Payloads(frames) + PayloadOf(frame)
  {
    var all := frames + [frame];
    assert all[..|frames|] == frames;
  }

  lemma {:induction false} PayloadsPrepend(frame: Bytes, frames: seq<Bytes>)
    requires Intact(frame) && AllIntact(frames)
    ensures AllIntact([frame] + frames)
    ensures Payloads([frame] + frames) == PayloadOf(frame) + Payloads(frames)
    decreases |frames|
  {
    if frames == [] {
      PayloadsSnoc([], frame);
      assert [frame] + frames == [] + [frame];
    } else {
      var init, last := IntactSnoc(frames);
      PayloadsPrepend(frame, init);
      PayloadsInsert(frame, init, last);
    }
  }

  lemma IntactSnoc(frames: seq<Bytes>) returns (init: seq<Bytes>, last: Bytes)
    requires AllIntact(frames) && frames != []
    ensures frames == init + [last] && AllIntact(init) && Intact(last) && |init| < |frames|
  {
    init, last := frames[..|frames| - 1], frames[|frames| - 1];
  }

  lemma PayloadsInsert(frame: Bytes, init: seq<Bytes>, last: Bytes)
    requires Intact(frame) && AllIntact(init) && Intact(last) && AllIntact([frame] + init)
    requires Payloads([frame] + init) == PayloadOf(frame) + Payloads(init)
    ensures AllIntact(init + [last]) && AllIntact([frame] + (init + [last]))
    ensures Payloads([frame] + (init + [last])) == PayloadOf(frame) + Payloads(init + [last])
  {
    PayloadsSnoc([frame] + init, last);
    PayloadsSnoc(init, last);
    Assoc([frame], init, [last]);
    Assoc(PayloadOf(frame), Payloads(init), PayloadOf(last));
  }

  /** The frames on the wire for a list of messages. */
  function Wire(messages: seq<Message>): (frames: seq<Bytes>)
    requires AllSendable(messages)
    ensures |frames| == |messages|
  {
    if messages == [] then [] else [Encode(messages[0])] + Wire(messages[1..])
  }

  /** The fragments of any data are intact DATA frames that together carry it, as few as 64 bytes each allow. */
  lemma {:induction false} FragmentsCarry(data: Bytes)
    ensures AllIntact(Wire(Fragments(data)))
    ensures Payloads(Wire(Fragments(data))) == data
    ensures |Fragments(data)| == (|data| + 63) / 64
    decreases |data|
  {
    if data != [] {
      var k := if |data| <= MAX_PAYLOAD then |data| else MAX_PAYLOAD;
      var head, tail := data[..k], data[k..];
      EncodeIntact(Data(head));
      FragmentsCarry(tail);
      assert data == head + tail;
      FragmentsCons(data, head, tail);
      WireCons(Data(head), Fragments(tail));
      PayloadsPrepend(Encode(Data(head)), Wire(Fragments(tail)));
    }
  }

  lemma FragmentsCons(data: Bytes, head: Bytes, tail: Bytes)
    requires data != [] && data == head + tail
    requires |head| == if |data| <= MAX_PAYLOAD then |data| else MAX_PAYLOAD
    ensures Fragments(data) == [Data(head)] + Fragments(tail)
  {
    if |data| <= MAX_PAYLOAD {
      assert head == data && tail == [];
    } else {
      assert data[..MAX_PAYLOAD] == head && data[MAX_PAYLOAD..] == tail;
    }
  }

  lemma WireCons(m: Message, messages: seq<Message>)
    requires Sendable(m) && AllSendable(messages)
    ensures AllSendable([m] + messages)
    ensures Wire([m] + messages) == [Encode(m)] + Wire(messages)
  {
    assert ([m] + messages)[1..] == messages;
  }

  // ----- corruption

  lemma ParseOneFrame(g: Bytes)
    requires Sized(g)
    ensures Parse(g) == Parsed([Frame(g)], [])
  {
    ParseFrames([g]);
    assert Concat([g]) == g + Concat([]) == g;
    assert FrameItems([g]) == [Frame(g)];
  }

  lemma ApplyOneItem(cfg: Config, l: Link, item: Item, at: nat)
    requires item.Frame? ==> Sized(item.bytes)
    ensures ApplyItems(cfg, l, [item], at) == ApplyItem(cfg, l, item, at)
  {
    assert [item][..0] == [];
    var e := ApplyItem(cfg, l, item, at);
    assert [] + e.actions == e.actions;
  }

  lemma ReceiveOneFrame(cfg: Config, l: Link, g: Bytes, at: nat)
    requires Parked(l) && l.rx == [] && Sized(g)
    ensures Step(cfg, l, Read(g, at)) == ApplyItem(cfg, l, Frame(g), at)
  {
    ParseOneFrame(g);
    assert l.rx + Taken(l, g) == g;
    ApplyOneItem(cfg, l, Frame(g), at);
    assert ApplyItem(cfg, l, Frame(g), at).link.rx == [];
  }

  /**
   * A frame with one byte changed, if its size is still what its header
   * announces, puts the link into error from any state and causes nothing else.
   */
  lemma CorruptFrameRejected(cfg: Config, l: Link, frame: Bytes, i: nat, b: byte, at: nat)
    requires Parked(l) && l.rx == []
    requires Intact(frame) && i < |frame| && b != frame[i] && Sized(frame[i := b])
    ensures Step(cfg, l, Read(frame[i := b], at))
         == Effect(l.(state := Error, lastRx := Wrap(at)), [Processed(frame[i := b], at)])
  {
    CorruptionBreaksChecksum(frame, i, b);
    ReceiveOneFrame(cfg, l, frame[i := b], at);
  }

  /** After an error nothing is delivered or acknowledged until a reset. */
  lemma ErrorAction(cfg: Config, a: Action)
    requires !a.Connecting? && !a.Closed? && !a.Expired?
    ensures After(Error, a) == Error
    ensures OwedFor(cfg, Error, a).delivered == [] && OwedFor(cfg, Error, a).acks == []
  {
  }

  /** The account of a session that a frame with a bad checksum ends. */
  ghost predicate Ended(cfg: Config, t: Trace, frames: seq<Bytes>)
    requires AllIntact(frames)
  {
    && StateAfter(RpcActive, t) == Error
    && Owed(cfg, RpcActive, t).delivered == (if cfg.callback then Payloads(frames) else [])
    && Owed(cfg, RpcActive, t).acks == AcksFor(frames)
  }

  lemma SessionEnds(cfg: Config, t: Trace, frames: seq<Bytes>, bad: Bytes, at: nat)
    requires NoReset(t) && ItemsOf(t) == FrameItems(frames) && AllIntact(frames) && !Intact(bad)
    ensures Ended(cfg, t + [Processed(bad, at)], frames)
  {
    SessionOwes(cfg, t, frames);
    assert (t + [Processed(bad, at)])[..|t|] == t;
  }

  lemma EndedGoesOn(cfg: Config, t: Trace, frames: seq<Bytes>, a: Action)
    requires AllIntact(frames) && Ended(cfg, t, frames) && !a.Connecting? && !a.Closed? && !a.Expired?
    ensures Ended(cfg, t + [a], frames)
  {
    assert (t + [a])[..|t|] == t;
    ErrorAction(cfg, a);
  }

  lemma SameLast<T>(x: seq<T>, a: T, y: seq<T>, b: T)
    requires x + [a] == y + [b]
    ensures x == y && a == b
  {
    assert x == (x + [a])[..|x|] && y == (y + [b])[..|y|];
    assert a == (x + [a])[|x|] && b == (y + [b])[|y|];
  }

  lemma LastBehind<T>(x: seq<T>, a: T, front: seq<T>, more: seq<T>)
    requires x + [a] == front + more && more != []
    ensures x == front + more[..|more| - 1]
  {
    var m := |more| - 1;
    assert more == more[..m] + [more[m]];
    Assoc(front, more[..m], [more[m]]);
    SameLast(x, a, front + more[..m], more[m]);
  }

  /** The items before a trace's last action, and what this one is. */
  lemma ItemsBeforeLast(t: Trace) returns (before: seq<Item>, own: seq<Item>)
    requires t != []
    ensures before == ItemsOf(t[..|t| - 1]) && own == ItemOfAction(t[|t| - 1])
    ensures ItemsOf(t) == before + own && |own| <= 1
  {
    before, own := ItemsOf(t[..|t| - 1]), ItemOfAction(t[|t| - 1]);
  }

  lemma {:induction false} BadFrameEnds(cfg: Config, t: Trace, frames: seq<Bytes>, bad: Bytes, more: seq<Item>)
    requires NoReset(t) && AllIntact(frames) && !Intact(bad)
    requires ItemsOf(t) == FrameItems(frames) + [Frame(bad)] + more
    ensures Ended(cfg, t, frames)
    decreases |t|
  {
    var init, last := t[..|t| - 1], t[|t| - 1];
    assert t == init + [last];
    var before, own := ItemsBeforeLast(t);
    if own == [] {
      BadFrameEnds(cfg, init, frames, bad, more);
      EndedGoesOn(cfg, init, frames, last);
    } else if more == [] {
      SameLast(before, own[0], FrameItems(frames), Frame(bad));
      SessionEnds(cfg, init, frames, bad, last.at);
    } else {
      LastBehind(before, own[0], FrameItems(frames) + [Frame(bad)], more);
      BadFrameEnds(cfg, init, frames, bad, more[..|more| - 1]);
      EndedGoesOn(cfg, init, frames, last);
    }
  }

  lemma ParseFramesAndOne(frames: seq<Bytes>, bad: Bytes)
    requires AllIntact(frames) && Sized(bad)
    ensures Parse(Concat(frames) + bad) == Parsed(FrameItems(frames) + [Frame(bad)], [])
  {
    var all := frames + [bad];
    assert forall i :: 0 <= i < |frames| ==> Intact(frames[i]) && all[i] == frames[i];
    ParseFrames(all);
    ConcatSplit(frames, [bad]);
    assert Concat([bad]) == bad + Concat([]) == bad;
    assert FrameItems(all) == FrameItems(frames) + [Frame(bad)];
  }

  lemma ParseFramesAndMore(frames: seq<Bytes>, bad: Bytes, rest: Bytes)
    requires AllIntact(frames) && Sized(bad)
    ensures Parse(Concat(frames) + bad + rest).items == FrameItems(frames) + [Frame(bad)] + Parse(rest).items
  {
    ParseFramesAndOne(frames, bad);
    ParseResumes(Concat(frames) + bad, rest);
    assert [] + rest == rest;
  }

  /**
   * An active session that receives intact frames, then one with a byte
   * changed and its size unchanged, then anything at all, cut in any way: it
   * ends in ERROR, and exactly the payloads before the corrupted frame were
   * delivered and acknowledged.
   */
  lemma CorruptionEndsSession(cfg: Config, l: Link, evs: seq<Event>, frames: seq<Bytes>,
                              frame: Bytes, i: nat, b: byte, rest: Bytes)
    requires Parked(l) && l.rx == [] && l.state == RpcActive && cfg.callback && EventsOk(evs)
    requires AllIntact(frames) && Intact(frame) && i < |frame| && b != frame[i] && Sized(frame[i := b])
    requires Received(evs) == Concat(frames) + frame[i := b] + rest && NoReset(Run(cfg, l, evs).actions)
    ensures var e := Run(cfg, l, evs);
            && e.link.state == Error
            && Done(e.actions).delivered == Payloads(frames)
            && Done(e.actions).acks == AcksFor(frames)
  {
    var t := Run(cfg, l, evs).actions;
    CorruptionBreaksChecksum(frame, i, b);
    StreamDecides(cfg, l, evs);
    assert l.rx + Received(evs) == Concat(frames) + frame[i := b] + rest;
    ParseFramesAndMore(frames, frame[i := b], rest);
    BadFrameEnds(cfg, t, frames, frame[i := b], Parse(rest).items);
    RunState(cfg, l, evs);
    ProtocolIsFollowed(cfg, l, evs);
  }
}
