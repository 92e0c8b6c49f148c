/**
 * The firmware's own form of the link: static fields, a fixed 256-byte
 * assembly buffer worked on in place, and the loops of the receive task and
 * of the sender. Each method is proved to do what the state machine says.
 */
module ExpansionModule {
  import opened Streams
  import opened ExpansionFrames
  import opened ExpansionLink

  datatype SendResult = Sent | InvalidState | Failed

  lemma ProcessFrameIgnoresBuffer(cfg: Config, l: Link, rx: Bytes, f: Bytes, at: nat)
    requires Sized(f)
    ensures var e := ProcessFrame(cfg, l, f, at);
            ProcessFrame(cfg, l.(rx := rx), f, at) == Effect(e.link.(rx := rx), e.actions)
  {
  }

  lemma ApplyItemsSnoc(cfg: Config, l: Link, items: seq<Item>, item: Item, at: nat)
    requires ItemsSized(items) && (item.Frame? ==> Sized(item.bytes))
    ensures ItemsSized(items + [item])
    ensures var e := ApplyItems(cfg, l, items, at);
            ApplyItems(cfg, l, items + [item], at) == Then(e, ApplyItem(cfg, e.link, item, at))
  {
    assert (items + [item])[..|items|] == items;
  }

  /** How far the extraction loop is: `done` has been applied, `s` is still in the buffer. */
  ghost predicate Extracting(whole: Bytes, done: seq<Item>, s: Bytes)
  {
    && ItemsSized(done)
    && Parse(whole) == Parsed(done + Parse(s).items, Parse(s).rest)
  }

  lemma ExtractSkip(whole: Bytes, done: seq<Item>, s: Bytes)
    requires Extracting(whole, done, s) && s != [] && FrameSize(s).Invalid?
    ensures Extracting(whole, done + [Skip(s[0])], s[1..])
  {
    Assoc(done, [Skip(s[0])], Parse(s[1..]).items);
  }

  lemma ExtractFrame(whole: Bytes, done: seq<Item>, s: Bytes, n: nat)
    requires Extracting(whole, done, s) && s != [] && FrameSize(s) == Exactly(n) && n <= |s|
    ensures Sized(s[..n])
    ensures Extracting(whole, done + [Frame(s[..n])], s[n..])
  {
    assert FrameSize(s[..n]) == FrameSize(s);
    Assoc(done, [Frame(s[..n])], Parse(s[n..]).items);
  }

  /** A run up to event `i`, and one event more. */
  lemma RunNext(cfg: Config, l: Link, evs: seq<Event>, i: nat) returns (before: Effect, after: Effect)
    requires Parked(l) && EventsOk(evs) && i < |evs|
    ensures EventsOk(evs[..i]) && before == Run(cfg, l, evs[..i])
    ensures Parked(before.link) && EventOk(evs[i]) && after == Step(cfg, before.link, evs[i])
    ensures EventsOk(evs[..i + 1]) && Run(cfg, l, evs[..i + 1]) == Then(before, after)
  {
    assert evs[..i + 1][..i] == evs[..i];
    before := Run(cfg, l, evs[..i]);
    after := Step(cfg, before.link, evs[i]);
  }

  lemma SendOneMore(data: Bytes, offset: nat, chunk: nat, accepted: nat)
    requires offset < |data| && accepted > 0 && chunk == ChunkSize(data[offset..])
    ensures SendActions(data[offset..], accepted)
         == [Transmitted(Data(data[offset..offset + chunk]))] + SendActions(data[offset + chunk..], accepted - 1)
    ensures |Fragments(data[offset..])| == 1 + |Fragments(data[offset + chunk..])|
  {
    assert data[offset..][..chunk] == data[offset..offset + chunk];
    assert data[offset..][chunk..] == data[offset + chunk..];
  }

  class Module {
    const cfg: Config
    const rxBuf: array<byte>
    var rxLen: nat
    var state: State
    var baud: nat
    var lastRxTick: Tick
    var lastHeartbeat: Tick
    var sends: seq<Bytes>
    ghost var trace: seq<Action>

    ghost predicate Valid()
      reads this
    {
      rxBuf.Length == RX_BUF_SIZE && rxLen <= RX_BUF_SIZE
    }

    ghost function Abs(): (l: Link)
      requires Valid()
      reads this, rxBuf
    {
      Link(state, rxBuf[..rxLen], baud, lastRxTick, lastHeartbeat, sends)
    }

    constructor (cfg: Config)
      ensures Valid() && fresh(rxBuf) && this.cfg == cfg
      ensures Abs() == INITIAL && trace == []
    {
      this.cfg := cfg;
      rxBuf := new byte[RX_BUF_SIZE];
      rxLen, state, baud, lastRxTick, lastHeartbeat, sends, trace := 0, Disconnected, INITIAL_BAUD, 0, 0, [], [];
    }

    /** Drops the first `k` buffered bytes by moving the others to the front. */
    method Consume(k: nat)
      requires Valid() && k <= rxLen
      modifies this`rxLen, rxBuf
      ensures Valid() && rxLen == old(rxLen) - k
      ensures rxBuf[..rxLen] == old(rxBuf[..rxLen])[k..]
    {
      rxLen := rxLen - k;
      forall i | 0 <= i < rxLen {
        rxBuf[i] := rxBuf[i + k];
      }
    }

    method ProcessFrame(frame: Bytes, at: nat)
      requires Valid() && Sized(frame)
      modifies this`state, this`baud, this`lastRxTick, this`trace
      ensures Abs() == ExpansionLink.ProcessFrame(cfg, old(Abs()), frame, at).link
      ensures trace == old(trace) + ExpansionLink.ProcessFrame(cfg, old(Abs()), frame, at).actions
    {
      lastRxTick := Wrap(at);
      var expected := CalcChecksum(frame[..|frame| - 1]);
      if expected != frame[|frame| - 1] {
        state := Error;
        return;
      }
      match state {
        case AwaitingHeartbeat =>
          if frame[0] == HEARTBEAT {
            state := BaudNegotiation;
            trace := trace + [Transmitted(BaudRate(cfg.targetBaud))];
          }
        case BaudNegotiation =>
          if frame[0] == STATUS {
            if frame[1] == STATUS_OK {
              baud := cfg.targetBaud;
              state := RpcStarting;
              trace := trace + [BaudSet(cfg.targetBaud), Transmitted(Control(START_RPC))];
            } else if frame[1] == STATUS_ERROR_BAUD_RATE {
              state := RpcStarting;
              trace := trace + [Transmitted(Control(START_RPC))];
            } else {
              state := Error;
            }
          }
        case RpcStarting =>
          if frame[0] == STATUS {
            state := if frame[1] == STATUS_OK then RpcActive else Error;
          }
        case RpcActive =>
          if frame[0] == DATA {
            if frame[1] > 0 && cfg.callback {
              trace := trace + [Delivered(frame[2..2 + frame[1]]), Transmitted(Status(STATUS_OK))];
            } else {
              trace := trace + [Transmitted(Status(STATUS_OK))];
            }
          } else if frame[0] == HEARTBEAT {
            trace := trace + [Transmitted(Heartbeat)];
          }
        case _ =>
      }
    }

    /** Copies as much of `chunk` as fits behind the buffered bytes. */
    method Append(chunk: Bytes)
      requires Valid()
      modifies this`rxLen, rxBuf
      ensures Valid() && rxBuf[..rxLen] == old(rxBuf[..rxLen]) + Taken(old(Abs()), chunk)
    {
      var n := |chunk|;
      if rxLen + n > RX_BUF_SIZE {
        n := RX_BUF_SIZE - rxLen;
      }
      forall i | 0 <= i < n {
        rxBuf[rxLen + i] := chunk[i];
      }
      rxLen := rxLen + n;
    }

    /** One complete frame at the front of the buffer is processed and removed. */
    method TakeFrame(n: nat, at: nat)
      requires Valid() && 0 < n <= rxLen && Sized(rxBuf[..n])
      modifies this`rxLen, this`state, this`baud, this`lastRxTick, this`trace, rxBuf
      ensures Valid() && rxLen == old(rxLen) - n
      ensures Abs().rx == old(Abs()).rx[n..]
      ensures forall rx ::
                Effect(Abs().(rx := rx), trace)
                == Then(Effect(old(Abs()), old(trace)),
                        ApplyItem(cfg, old(Abs()).(rx := rx), Frame(old(rxBuf[..n])), at))
    {
      ghost var l := Abs();
      ghost var f := rxBuf[..n];
      trace := trace + [Processed(f, at)];
      ProcessFrame(rxBuf[..n], at);
      Consume(n);
      forall rx
        ensures ExpansionLink.ProcessFrame(cfg, l.(rx := rx), f, at)
             == Effect(Abs().(rx := rx), ExpansionLink.ProcessFrame(cfg, l, f, at).actions)
      {
        ProcessFrameIgnoresBuffer(cfg, l, rx, f, at);
      }
      Assoc(old(trace), [Processed(f, at)], ExpansionLink.ProcessFrame(cfg, l, f, at).actions);
    }

    /** The receive task's handling of one non-empty read. */
    method UartRead(chunk: Bytes, at: nat)
      requires Valid()
      modifies this`rxLen, this`state, this`baud, this`lastRxTick, this`trace, rxBuf
      ensures Valid()
      ensures Abs() == Receive(cfg, old(Abs()), chunk, at).link
      ensures trace == old(trace) + Receive(cfg, old(Abs()), chunk, at).actions
    {
      ghost var l, t := Abs(), trace;
      ghost var whole := l.rx + Taken(l, chunk);
      ghost var done: seq<Item> := [];
      Append(chunk);
      assert [] + Parse(whole).items == Parse(whole).items;
      while rxLen > 0
        invariant Valid()
        invariant Extracting(whole, done, rxBuf[..rxLen])
        invariant Abs().(rx := l.rx) == ApplyItems(cfg, l, done, at).link
        invariant trace == t + ApplyItems(cfg, l, done, at).actions
        decreases rxLen
      {
        ghost var s := rxBuf[..rxLen];
        var size := FrameSize(rxBuf[..rxLen]);
        if size.NeedMore? {
          break;
        } else if size.Invalid? {
          ExtractSkip(whole, done, s);
          ApplyItemsSnoc(cfg, l, done, Skip(s[0]), at);
          Assoc(t, ApplyItems(cfg, l, done, at).actions, [Skipped(s[0])]);
          trace := trace + [Skipped(s[0])];
          Consume(1);
          done := done + [Skip(s[0])];
        } else if size.n <= rxLen {
          ExtractFrame(whole, done, s, size.n);
          assert rxBuf[..size.n] == s[..size.n];
          ApplyItemsSnoc(cfg, l, done, Frame(s[..size.n]), at);
          ghost var e := ApplyItems(cfg, l, done, at);
          Assoc(t, e.actions, ApplyItem(cfg, e.link, Frame(s[..size.n]), at).actions);
          TakeFrame(size.n, at);
          done := done + [Frame(s[..size.n])];
        } else {
          break;
        }
      }
      assert done + [] == done;
    }

    method CheckWatchdog(at: nat)
      requires Valid()
      modifies this`rxLen, this`state, this`lastRxTick, this`trace
      ensures Valid()
      ensures Abs() == ExpansionLink.CheckWatchdog(cfg, old(Abs()), at).link
      ensures trace == old(trace) + ExpansionLink.CheckWatchdog(cfg, old(Abs()), at).actions
    {
      if state != Disconnected {
        var now := Wrap(at);
        if lastRxTick != 0 && Elapsed(now, lastRxTick) > cfg.WatchdogTicks() {
          trace := trace + [Expired(at, rxBuf[..rxLen])];
          state := Error;
          rxLen := 0;
          lastRxTick := now;
        }
      }
    }

    method CheckHeartbeat(at: nat)
      requires Valid()
      modifies this`lastHeartbeat, this`trace
      ensures Abs() == ExpansionLink.CheckHeartbeat(cfg, old(Abs()), at).link
      ensures trace == old(trace) + ExpansionLink.CheckHeartbeat(cfg, old(Abs()), at).actions
    {
      if state == RpcActive {
        var now := Wrap(at);
        if Elapsed(now, lastHeartbeat) > cfg.HeartbeatTicks() {
          trace := trace + [Beat(at), Transmitted(Heartbeat)];
          lastHeartbeat := now;
        }
      }
    }

    /** expansion_connect; false stands for ESP_ERR_INVALID_STATE. */
    method Connect(at: nat) returns (ok: bool)
      requires Valid()
      modifies this`rxLen, this`state, this`baud, this`lastRxTick, this`trace
      ensures Valid()
      ensures ok == (old(state) == Disconnected || old(state) == Error)
      ensures Abs() == ConnectLink(old(Abs()), at).link
      ensures trace == old(trace) + ConnectLink(old(Abs()), at).actions
    {
      if state != Disconnected && state != Error {
        return false;
      }
      trace := trace + [BaudSet(INITIAL_BAUD), Connecting(at, rxBuf[..rxLen])];
      baud := INITIAL_BAUD;
      rxLen := 0;
      lastRxTick := Wrap(at);
      state := AwaitingHeartbeat;
      return true;
    }

    method Disconnect()
      requires Valid()
      modifies this`rxLen, this`state, this`baud, this`trace
      ensures Valid()
      ensures Abs() == DisconnectLink(old(Abs())).link
      ensures trace == old(trace) + DisconnectLink(old(Abs())).actions
    {
      if state == RpcActive {
        trace := trace + [Transmitted(Control(STOP_RPC))];
      }
      trace := trace + [Closed(rxBuf[..rxLen]), BaudSet(INITIAL_BAUD)];
      state := Disconnected;
      rxLen := 0;
      baud := INITIAL_BAUD;
    }

    method SendDataFrame(payload: Bytes)
      modifies this`trace
      ensures trace == old(trace) + [Transmitted(Data(payload))]
    {
      trace := trace + [Transmitted(Data(payload))];
    }

    /** expansion_send_rpc undisturbed: the UART takes `accepted` frames, then a write fails. */
    method SendRpc(data: Bytes, accepted: nat) returns (r: SendResult)
      requires Valid()
      modifies this`trace
      ensures trace == old(trace) + ExpansionLink.SendRpc(old(Abs()), data, accepted).actions
      ensures r == if old(state) != RpcActive then InvalidState
                   else if accepted < |Fragments(data)| then Failed else Sent
    {
      if state != RpcActive {
        trace := trace + [Dropped(data)];
        return InvalidState;
      }
      ghost var whole := trace + SendActions(data, accepted);
      var offset, k := 0, 0;
      assert data[0..] == data;
      while offset < |data|
        invariant offset <= |data| && k <= accepted && k + |Fragments(data[offset..])| == |Fragments(data)|
        invariant trace + SendActions(data[offset..], accepted - k) == whole
      {
        var chunk := |data| - offset;
        if chunk > MAX_PAYLOAD {
          chunk := MAX_PAYLOAD;
        }
        if k == accepted {
          trace := trace + [Dropped(data[offset..])];
          return Failed;
        }
        SendOneMore(data, offset, chunk, accepted - k);
        Assoc(trace, [Transmitted(Data(data[offset..offset + chunk]))],
              SendActions(data[offset + chunk..], accepted - k - 1));
        SendDataFrame(data[offset..offset + chunk]);
        offset, k := offset + chunk, k + 1;
      }
      return Sent;
    }

    /** A caller enters expansion_send_rpc; what it has left to write is its own local state. */
    method BeginSend(data: Bytes)
      requires Valid()
      modifies this`trace, this`sends
      ensures Effect(Abs(), trace)
           == Then(Effect(old(Abs()), old(trace)), ExpansionLink.BeginSend(old(Abs()), data))
    {
      if state != RpcActive {
        trace := trace + [Dropped(data)];
      } else if data != [] {
        sends := sends + [data];
      }
    }

    /** A caller wakes up and makes its next pass. */
    method SendPass(i: nat, taken: bool)
      requires Valid()
      modifies this`trace, this`sends
      ensures Effect(Abs(), trace)
           == Then(Effect(old(Abs()), old(trace)), ExpansionLink.SendPass(old(Abs()), i, taken))
    {
      if i < |sends| {
        var data := sends[i];
        var chunk := ChunkSize(data);
        if taken {
          SendDataFrame(data[..chunk]);
          sends := Shorten(sends, i, data[chunk..]);
        } else {
          trace := trace + [Dropped(data)];
          sends := Shorten(sends, i, []);
        }
      }
    }

    /** One event of any of the tasks that use the link. */
    method Dispatch(ev: Event)
      requires Valid() && Parked(Abs()) && EventOk(ev)
      modifies this, rxBuf
      ensures Valid()
      ensures Effect(Abs(), trace) == Then(Effect(old(Abs()), old(trace)), Step(cfg, old(Abs()), ev))
    {
      match ev {
        case Read(chunk, at) => UartRead(chunk, at);
        case WatchdogCheck(at) => CheckWatchdog(at);
        case HeartbeatCheck(at) => CheckHeartbeat(at);
        case Connect(at) => var ok := Connect(at);
        case Disconnect => Disconnect();
        case Send(data) => BeginSend(data);
        case Pass(i, taken) => SendPass(i, taken);
      }
    }

    /** Any interleaving of the tasks: the fields and all actions are those of the state machine's run. */
    method Execute(evs: seq<Event>)
      requires Valid() && Parked(Abs()) && EventsOk(evs)
      modifies this, rxBuf
      ensures Valid() && Parked(Abs())
      ensures Abs() == Run(cfg, old(Abs()), evs).link
      ensures trace == old(trace) + Run(cfg, old(Abs()), evs).actions
    {
      ghost var l := Abs();
      for i := 0 to |evs|
        invariant Valid() && EventsOk(evs[..i])
        invariant Abs() == Run(cfg, l, evs[..i]).link
        invariant trace == old(trace) + Run(cfg, l, evs[..i]).actions
      {
        ghost var before, after := RunNext(cfg, l, evs, i);
        Dispatch(evs[i]);
        Assoc(old(trace), before.actions, after.actions);
      }
      assert evs[..|evs|] == evs;
    }
  }
}
