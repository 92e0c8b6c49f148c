/**
 * The bridge's end of the expansion link as a state machine. Every step of the
 * receive task, of the connect task, of the HTTP reconnect and of the TCP
 * forwarder is one event; a run is any interleaving of them. Each event yields
 * the new link and the actions it caused, in order.
 */
module ExpansionLink {
  import opened Streams
  import opened ExpansionFrames

  const INITIAL_BAUD: nat := 9600
  const RX_BUF_SIZE := 256
  const READ_SIZE := 128

  // ----- time

  const TICK_RANGE := 0x1_0000_0000

  type Tick = t: int | 0 <= t < TICK_RANGE

  /** The 32-bit tick counter at true time `at`. */
  function Wrap(at: nat): (r: Tick) { at % TICK_RANGE }

  /** Unsigned 32-bit subtraction of two tick values. */
  function Elapsed(now: Tick, since: Tick): (r: Tick) { (now - since) % TICK_RANGE }

  /** Wrapped subtraction measures true time as long as less than a full counter period has passed. */
  lemma ElapsedIsTrueTime(at: nat, since: nat)
    requires since <= at
    ensures Elapsed(Wrap(at), Wrap(since)) == (at - since) % 0x1_0000_0000
    ensures Elapsed(Wrap(at), Wrap(since)) <= at - since
    ensures at - since < 0x1_0000_0000 ==> Elapsed(Wrap(at), Wrap(since)) == at - since
  {
    var qa, qs := at / TICK_RANGE, since / TICK_RANGE;
    assert Wrap(at) - Wrap(since) == (at - since) - (qa - qs) * TICK_RANGE;
    ModShift(at - since, qs - qa);
  }

  lemma {:induction false} ModShift(x: int, k: int)
    ensures (x + k * TICK_RANGE) % TICK_RANGE == x % TICK_RANGE
  {
  }

  // ----- the link

  datatype State = Disconnected | AwaitingHeartbeat | BaudNegotiation | RpcStarting | RpcActive | Error

  datatype Config = Config(targetBaud: nat, callback: bool, tickRateHz: nat)
  {
    /** Ticks of silence after which the watchdog gives up. */
    function WatchdogTicks(): (r: nat) { 1500 * tickRateHz / 1000 }

    /** Ticks between two heartbeats of an active session. */
    function HeartbeatTicks(): (r: nat) { 200 * tickRateHz / 1000 }
  }

  /** The static fields, and what is left to write of each expansion_send_rpc that has not returned. */
  datatype Link =
    Link(state: State, rx: Bytes, baud: nat, lastRx: Tick, lastHeartbeat: Tick, sends: seq<Bytes>)

  const INITIAL := Link(Disconnected, [], INITIAL_BAUD, 0, 0, [])

  datatype Action =
    | Skipped(b: byte)                          // a byte that starts no frame is dropped
    | Processed(frame: Bytes, at: nat)          // a complete frame is handed to process_frame
    | Transmitted(message: Message)             // a frame is written to the UART
    | Delivered(payload: Bytes)                 // RPC bytes are handed to the callback
    | BaudSet(baud: nat)
    | Connecting(at: nat, dropped: Bytes)       // an effective expansion_connect
    | Closed(dropped: Bytes)                    // expansion_disconnect
    | Expired(at: nat, dropped: Bytes)          // the watchdog fires
    | Beat(at: nat)                             // the periodic heartbeat is due
    | Dropped(data: Bytes)                      // expansion_send_rpc returns an error with `data` not written

  datatype Effect = Effect(link: Link, actions: seq<Action>)

  datatype Event =
    | Read(chunk: Bytes, at: nat)               // uart_read_bytes returned `chunk`
    | WatchdogCheck(at: nat)
    | HeartbeatCheck(at: nat)
    | Connect(at: nat)
    | Disconnect
    | Send(data: Bytes)                         // expansion_send_rpc is called
    | Pass(send: nat, taken: bool)              // it tries to write its next frame

  // ----- process_frame

  function ProcessFrame(cfg: Config, l: Link, frame: Bytes, at: nat): (e: Effect)
    requires Sized(frame)
  {
    var l := l.(lastRx := Wrap(at));
    if !ChecksumOk(frame) then Effect(l.(state := Error), [])
    else
      match l.state
      case AwaitingHeartbeat =>
        if frame[0] == HEARTBEAT then
          Effect(l.(state := BaudNegotiation), [Transmitted(BaudRate(cfg.targetBaud))])
        else Effect(l, [])
      case BaudNegotiation =>
        if frame[0] != STATUS then Effect(l, [])
        else if frame[1] == STATUS_OK then
          Effect(l.(state := RpcStarting, baud := cfg.targetBaud),
                 [BaudSet(cfg.targetBaud), Transmitted(Control(START_RPC))])
        else if frame[1] == STATUS_ERROR_BAUD_RATE then
          Effect(l.(state := RpcStarting), [Transmitted(Control(START_RPC))])
        else Effect(l.(state := Error), [])
      case RpcStarting =>
        if frame[0] != STATUS then Effect(l, [])
        else Effect(l.(state := if frame[1] == STATUS_OK then RpcActive else Error), [])
      case RpcActive =>
        if frame[0] == DATA then Effect(l, DataActions(cfg, Payload(frame)))
        else if frame[0] == HEARTBEAT then Effect(l, [Transmitted(Heartbeat)])
        else Effect(l, [])
      case _ => Effect(l, [])
  }

  /** Hand a non-empty payload to the callback, then acknowledge. */
  function DataActions(cfg: Config, payload: Bytes): (r: seq<Action>)
  {
    if payload != [] && cfg.callback then [Delivered(payload), Transmitted(Status(STATUS_OK))]
    else [Transmitted(Status(STATUS_OK))]
  }

  // ----- the receive task

  function ApplyItem(cfg: Config, l: Link, item: Item, at: nat): (e: Effect)
    requires item.Frame? ==> Sized(item.bytes)
  {
    match item
    case Skip(b) => Effect(l, [Skipped(b)])
    case Frame(f) =>
      var e := ProcessFrame(cfg, l, f, at);
      Effect(e.link, [Processed(f, at)] + e.actions)
  }

  ghost predicate ItemsSized(items: seq<Item>)
  {
    forall i :: 0 <= i < |items| && items[i].Frame? ==> Sized(items[i].bytes)
  }

  ghost function ApplyItems(cfg: Config, l: Link, items: seq<Item>, at: nat): (e: Effect)
    requires ItemsSized(items)
  {
    if items == [] then Effect(l, [])
    else
      var e := ApplyItems(cfg, l, items[..|items| - 1], at);
      Then(e, ApplyItem(cfg, e.link, items[|items| - 1], at))
  }

  function Then(first: Effect, second: Effect): (e: Effect)
  {
    Effect(second.link, first.actions + second.actions)
  }

  /** The part of a read that the assembly buffer has room for. */
  function Taken(l: Link, chunk: Bytes): (r: Bytes)
    requires |l.rx| <= RX_BUF_SIZE
  {
    if |l.rx| + |chunk| > RX_BUF_SIZE then chunk[..RX_BUF_SIZE - |l.rx|] else chunk
  }

  ghost function Receive(cfg: Config, l: Link, chunk: Bytes, at: nat): (e: Effect)
    requires |l.rx| <= RX_BUF_SIZE
  {
    var p := Parse(l.rx + Taken(l, chunk));
    ParseSized(l.rx + Taken(l, chunk));
    var e := ApplyItems(cfg, l, p.items, at);
    Effect(e.link.(rx := p.rest), e.actions)
  }

  function CheckWatchdog(cfg: Config, l: Link, at: nat): (e: Effect)
  {
    if l.state != Disconnected && l.lastRx != 0 && Elapsed(Wrap(at), l.lastRx) > cfg.WatchdogTicks()
    then Effect(l.(state := Error, rx := [], lastRx := Wrap(at)), [Expired(at, l.rx)])
    else Effect(l, [])
  }

  function CheckHeartbeat(cfg: Config, l: Link, at: nat): (e: Effect)
  {
    if l.state == RpcActive && Elapsed(Wrap(at), l.lastHeartbeat) > cfg.HeartbeatTicks()
    then Effect(l.(lastHeartbeat := Wrap(at)), [Beat(at), Transmitted(Heartbeat)])
    else Effect(l, [])
  }

  // ----- the API

  function ConnectLink(l: Link, at: nat): (e: Effect)
  {
    if l.state != Disconnected && l.state != Error then Effect(l, [])
    else Effect(l.(state := AwaitingHeartbeat, rx := [], baud := INITIAL_BAUD, lastRx := Wrap(at)),
                [BaudSet(INITIAL_BAUD), Connecting(at, l.rx)])
  }

  function DisconnectLink(l: Link): (e: Effect)
  {
    Effect(l.(state := Disconnected, rx := [], baud := INITIAL_BAUD),
           (if l.state == RpcActive then [Transmitted(Control(STOP_RPC))] else [])
           + [Closed(l.rx), BaudSet(INITIAL_BAUD)])
  }

  /** The DATA frames that carry `data`: 64 payload bytes each, the last one shorter. */
  function Fragments(data: Bytes): (messages: seq<Message>)
    ensures AllSendable(messages) && forall i :: 0 <= i < |messages| ==> messages[i].Data?
  {
    if data == [] then []
    else if |data| <= MAX_PAYLOAD then [Data(data)]
    else [Data(data[..MAX_PAYLOAD])] + Fragments(data[MAX_PAYLOAD..])
  }

  /** The size of the next DATA frame's payload. */
  function ChunkSize(data: Bytes): (k: nat)
    ensures k <= |data| && k <= MAX_PAYLOAD && (data != [] ==> k > 0)
  {
    if |data| > MAX_PAYLOAD then MAX_PAYLOAD else |data|
  }

  /** What the loop of expansion_send_rpc does with `data` if the UART takes `accepted` frames and then fails. */
  function SendActions(data: Bytes, accepted: nat): (r: seq<Action>)
    decreases |data|
  {
    if data == [] then []
    else if accepted == 0 then [Dropped(data)]
    else
      var k := ChunkSize(data);
      [Transmitted(Data(data[..k]))] + SendActions(data[k..], accepted - 1)
  }

  /** expansion_send_rpc with nothing else happening before it returns. */
  function SendRpc(l: Link, data: Bytes, accepted: nat): (e: Effect)
  {
    Effect(l, if l.state == RpcActive then SendActions(data, accepted) else [Dropped(data)])
  }

  /** The open sends of one caller that has `data` left to write. */
  function Left(data: Bytes): (r: seq<Bytes>) { if data == [] then [] else [data] }

  /** Its entry: the only place where the state is looked at. */
  function BeginSend(l: Link, data: Bytes): (e: Effect)
  {
    if l.state != RpcActive then Effect(l, [Dropped(data)])
    else Effect(l.(sends := l.sends + Left(data)), [])
  }

  /** What is left of open send `i` becomes `rest`; without any the send is over. */
  function Shorten(sends: seq<Bytes>, i: nat, rest: Bytes): (r: seq<Bytes>)
    requires i < |sends|
  {
    sends[..i] + Left(rest) + sends[i + 1..]
  }

  /** One pass of its loop for open send `i`; a failed write gives up all that is left. */
  function SendPass(l: Link, i: nat, taken: bool): (e: Effect)
  {
    if i >= |l.sends| then Effect(l, [])
    else
      var data := l.sends[i];
      var k := ChunkSize(data);
      if taken then Effect(l.(sends := Shorten(l.sends, i, data[k..])), [Transmitted(Data(data[..k]))])
      else Effect(l.(sends := Shorten(l.sends, i, [])), [Dropped(data)])
  }

  // ----- runs

  predicate EventOk(ev: Event)
  {
    ev.Read? ==> |ev.chunk| <= READ_SIZE
  }

  ghost predicate EventsOk(evs: seq<Event>)
  {
    forall i :: 0 <= i < |evs| ==> EventOk(evs[i])
  }

  ghost function Step(cfg: Config, l: Link, ev: Event): (e: Effect)
    requires |l.rx| <= RX_BUF_SIZE
  {
    match ev
    case Read(chunk, at) => Receive(cfg, l, chunk, at)
    case WatchdogCheck(at) => CheckWatchdog(cfg, l, at)
    case HeartbeatCheck(at) => CheckHeartbeat(cfg, l, at)
    case Connect(at) => ConnectLink(l, at)
    case Disconnect => DisconnectLink(l)
    case Send(data) => BeginSend(l, data)
    case Pass(i, taken) => SendPass(l, i, taken)
  }

  /** What the link may always be assumed to hold back: an incomplete frame. */
  ghost predicate Parked(l: Link)
  {
    Parse(l.rx) == Parsed([], l.rx) && |l.rx| <= MAX_PAYLOAD + 2
  }

  lemma ParseParked(s: Bytes)
    ensures var rest := Parse(s).rest; Parse(rest) == Parsed([], rest) && |rest| <= MAX_PAYLOAD + 2
  {
    ParseResumes(s, []);
    assert s + [] == s && Parse(s).rest + [] == Parse(s).rest;
    ParseRestShort(s);
  }

  /** Every event leaves at most 66 bytes in the buffer, so the next read of up to 128 bytes fits whole. */
  lemma StepParks(cfg: Config, l: Link, ev: Event)
    requires Parked(l) && EventOk(ev)
    ensures Parked(Step(cfg, l, ev).link)
    ensures ev.Read? ==> Taken(l, ev.chunk) == ev.chunk
  {
    if ev.Read? {
      ParseParked(l.rx + Taken(l, ev.chunk));
    }
  }

  /** The effect of a run from `l`. */
  ghost function Run(cfg: Config, l: Link, evs: seq<Event>): (e: Effect)
    requires Parked(l) && EventsOk(evs)
    ensures Parked(e.link)
  {
    if evs == [] then Effect(l, [])
    else
      var e := Run(cfg, l, evs[..|evs| - 1]);
      StepParks(cfg, e.link, evs[|evs| - 1]);
      Then(e, Step(cfg, e.link, evs[|evs| - 1]))
  }

  // ----- the state as a function of the actions alone

  predicate IntactOf(a: Action, kind: byte)
  {
    a.Processed? && Intact(a.frame) && a.frame[0] == kind
  }

  /** The state a link is in after action `a`, if it was in `s` before. */
  function After(s: State, a: Action): (r: State)
  {
    match a
    case Connecting(_, _) => AwaitingHeartbeat
    case Closed(_) => Disconnected
    case Expired(_, _) => Error
    case Processed(frame, _) =>
      if !Intact(frame) then Error
      else if s == AwaitingHeartbeat && frame[0] == HEARTBEAT then BaudNegotiation
      else if s == BaudNegotiation && frame[0] == STATUS then
        if frame[1] == STATUS_OK || frame[1] == STATUS_ERROR_BAUD_RATE then RpcStarting else Error
      else if s == RpcStarting && frame[0] == STATUS then
        if frame[1] == STATUS_OK then RpcActive else Error
      else s
    case _ => s
  }

  function StateAfter(s: State, trace: seq<Action>): (r: State)
  {
    if trace == [] then s else After(StateAfter(s, trace[..|trace| - 1]), trace[|trace| - 1])
  }

  lemma {:induction false} StateAfterSplit(s: State, a: seq<Action>, b: seq<Action>)
    ensures StateAfter(s, a + b) == StateAfter(StateAfter(s, a), b)
  {
    if b == [] {
      assert a + b == a;
    } else {
      assert (a + b)[..|a + b| - 1] == a + b[..|b| - 1];
      StateAfterSplit(s, a, b[..|b| - 1]);
    }
  }

  /** Actions that change no state. */
  predicate Neutral(a: Action)
  {
    a.Transmitted? || a.Delivered? || a.BaudSet? || a.Beat? || a.Skipped? || a.Dropped?
  }

  lemma {:induction false} NeutralKeepsState(s: State, trace: seq<Action>)
    requires forall i :: 0 <= i < |trace| ==> Neutral(trace[i])
    ensures StateAfter(s, trace) == s
  {
    if trace != [] {
      NeutralKeepsState(s, trace[..|trace| - 1]);
    }
  }

  lemma ApplyItemState(cfg: Config, l: Link, item: Item, at: nat)
    requires item.Frame? ==> Sized(item.bytes)
    ensures var e := ApplyItem(cfg, l, item, at); e.link.state == StateAfter(l.state, e.actions)
  {
    var e := ApplyItem(cfg, l, item, at);
    if item.Frame? {
      var rest := ProcessFrame(cfg, l, item.bytes, at).actions;
      StateAfterSplit(l.state, [Processed(item.bytes, at)], rest);
      assert StateAfter(l.state, [Processed(item.bytes, at)])
          == After(StateAfter(l.state, []), Processed(item.bytes, at));
      NeutralKeepsState(e.link.state, rest);
    }
  }

  lemma {:induction false} ApplyItemsState(cfg: Config, l: Link, items: seq<Item>, at: nat)
    requires ItemsSized(items)
    ensures var e := ApplyItems(cfg, l, items, at); e.link.state == StateAfter(l.state, e.actions)
  {
    if items != [] {
      var n := |items| - 1;
      ApplyItemsState(cfg, l, items[..n], at);
      var e := ApplyItems(cfg, l, items[..n], at);
      ApplyItemState(cfg, e.link, items[n], at);
      StateAfterSplit(l.state, e.actions, ApplyItem(cfg, e.link, items[n], at).actions);
    }
  }

  lemma StepState(cfg: Config, l: Link, ev: Event)
    requires |l.rx| <= RX_BUF_SIZE
    ensures var e := Step(cfg, l, ev); e.link.state == StateAfter(l.state, e.actions)
  {
    match ev
    case Read(chunk, at) =>
      ParseSized(l.rx + Taken(l, chunk));
      ApplyItemsState(cfg, l, Parse(l.rx + Taken(l, chunk)).items, at);
    case Send(data) => NeutralKeepsState(l.state, BeginSend(l, data).actions);
    case Pass(i, taken) => NeutralKeepsState(l.state, SendPass(l, i, taken).actions);
    case Disconnect =>
      var stop := if l.state == RpcActive then [Transmitted(Control(STOP_RPC))] else [];
      StateAfterSplit(l.state, stop, [Closed(l.rx), BaudSet(INITIAL_BAUD)]);
      assert [Closed(l.rx), BaudSet(INITIAL_BAUD)][..1] == [Closed(l.rx)];
    case Connect(at) =>
      assert [BaudSet(INITIAL_BAUD), Connecting(at, l.rx)][..1] == [BaudSet(INITIAL_BAUD)];
    case WatchdogCheck(at) =>
    case HeartbeatCheck(at) =>
      NeutralKeepsState(l.state, CheckHeartbeat(cfg, l, at).actions);
  }

  /** In every run the state is determined by the actions the link has taken. */
  lemma {:induction false} RunState(cfg: Config, l: Link, evs: seq<Event>)
    requires Parked(l) && EventsOk(evs)
    ensures var e := Run(cfg, l, evs); e.link.state == StateAfter(l.state, e.actions)
  {
    if evs != [] {
      var n := |evs| - 1;
      RunState(cfg, l, evs[..n]);
      var e := Run(cfg, l, evs[..n]);
      StepState(cfg, e.link, evs[n]);
      StateAfterSplit(l.state, e.actions, Step(cfg, e.link, evs[n]).actions);
    }
  }
}
