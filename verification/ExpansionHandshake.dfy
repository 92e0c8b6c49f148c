/**
 * What it takes to get the link into each state, over every interleaving of
 * receive-task, connect, disconnect and send steps. The statements speak only
 * of the trace of actions, so they do not depend on how the state is stored.
 */
module ExpansionHandshake {
  import opened Streams
  import opened ExpansionFrames
  import opened ExpansionLink

  type Trace = seq<Action>

  predicate IsHeartbeat(a: Action) { IntactOf(a, HEARTBEAT) }

  predicate IsStatus(a: Action) { IntactOf(a, STATUS) }

  predicate IsStatusCode(a: Action, code: byte) { IsStatus(a) && a.frame[1] == code }

  /** Connect, disconnect, a watchdog firing or a frame with a bad checksum. */
  predicate Interrupts(a: Action)
  {
    a.Connecting? || a.Closed? || a.Expired? || (a.Processed? && !Intact(a.frame))
  }

  /** `c` is a connect after which nothing interrupted the link. */
  ghost predicate Undisturbed(t: Trace, c: nat)
  {
    && c < |t|
    && t[c].Connecting?
    && forall i :: c < i < |t| ==> !Interrupts(t[i])
  }

  /** No intact frame of the given type was processed after position `from`. */
  ghost predicate NoneSince(t: Trace, from: nat, kind: byte)
  {
    forall i :: from < i < |t| ==> !IntactOf(t[i], kind)
  }

  /** `h` is the first intact HEARTBEAT after the connect at `c`. */
  ghost predicate Greeted(t: Trace, c: nat, h: nat)
  {
    && c < h < |t|
    && IsHeartbeat(t[h])
    && forall i :: c < i < h ==> !IsHeartbeat(t[i])
  }

  /** `b` is the first intact STATUS after `h`, and it lets the handshake go on. */
  ghost predicate BaudAnswered(t: Trace, h: nat, b: nat)
  {
    && h < b < |t|
    && (IsStatusCode(t[b], STATUS_OK) || IsStatusCode(t[b], STATUS_ERROR_BAUD_RATE))
    && forall i :: h < i < b ==> !IsStatus(t[i])
  }

  /** `s` is the first intact STATUS after `b`, and it is OK. */
  ghost predicate RpcAnswered(t: Trace, b: nat, s: nat)
  {
    && b < s < |t|
    && IsStatusCode(t[s], STATUS_OK)
    && forall i :: b < i < s ==> !IsStatus(t[i])
  }

  /** The whole handshake took place, in order, and nothing interrupted the link since. */
  ghost predicate Established(t: Trace, c: nat, h: nat, b: nat, s: nat)
  {
    Undisturbed(t, c) && Greeted(t, c, h) && BaudAnswered(t, h, b) && RpcAnswered(t, b, s)
  }

  // ----- from the state to the trace

  /** How much of the handshake the state stands for, with its positions in the trace. */
  ghost predicate Explains(t: Trace, st: State, c: nat, h: nat, b: nat, s: nat)
  {
    match st
    case AwaitingHeartbeat => Undisturbed(t, c) && NoneSince(t, c, HEARTBEAT)
    case BaudNegotiation => Undisturbed(t, c) && Greeted(t, c, h) && NoneSince(t, h, STATUS)
    case RpcStarting => Undisturbed(t, c) && Greeted(t, c, h) && BaudAnswered(t, h, b) && NoneSince(t, b, STATUS)
    case RpcActive => Established(t, c, h, b, s)
    case _ => true
  }

  /** What held of a prefix still holds when one more action is appended. */
  lemma Carried(t: Trace, c: nat, h: nat, b: nat, s: nat)
    requires t != []
    ensures var p := t[..|t| - 1];
            && (Undisturbed(p, c) && !Interrupts(t[|t| - 1]) ==> Undisturbed(t, c))
            && (Greeted(p, c, h) ==> Greeted(t, c, h))
            && (BaudAnswered(p, h, b) ==> BaudAnswered(t, h, b))
            && (RpcAnswered(p, b, s) ==> RpcAnswered(t, b, s))
  {
  }

  lemma ExplainsMore(t: Trace, before: State, c: nat, h: nat, b: nat, s: nat)
    requires t != []
    requires Explains(t[..|t| - 1], before, c, h, b, s)
    ensures var n := |t| - 1;
            var now := After(before, t[n]);
            Explains(t, now,
                     if t[n].Connecting? then n else c,
                     if now == BaudNegotiation && now != before then n else h,
                     if now == RpcStarting && now != before then n else b,
                     if now == RpcActive && now != before then n else s)
  {
    Carried(t, c, h, b, s);
    if !Interrupts(t[|t| - 1]) {
      ExplainsFrame(t, before, c, h, b, s);
    }
  }

  /** The first frame of a kind since `from` closes the interval in which there was none. */
  lemma FirstSince(t: Trace, from: nat, kind: byte)
    requires t != [] && from < |t| - 1 && NoneSince(t[..|t| - 1], from, kind)
    ensures !IntactOf(t[|t| - 1], kind) ==> NoneSince(t, from, kind)
    ensures forall i :: from < i < |t| - 1 ==> !IntactOf(t[i], kind)
    ensures NoneSince(t, |t| - 1, kind)
  {
    var p := t[..|t| - 1];
    assert forall i :: 0 <= i < |p| ==> t[i] == p[i];
  }

  lemma ExplainsFrame(t: Trace, before: State, c: nat, h: nat, b: nat, s: nat)
    requires t != [] && !Interrupts(t[|t| - 1])
    requires Explains(t[..|t| - 1], before, c, h, b, s)
    ensures var n := |t| - 1;
            var now := After(before, t[n]);
            Explains(t, now, c,
                     if now == BaudNegotiation && now != before then n else h,
                     if now == RpcStarting && now != before then n else b,
                     if now == RpcActive && now != before then n else s)
  {
    Carried(t, c, h, b, s);
    if before == AwaitingHeartbeat {
      FirstSince(t, c, HEARTBEAT);
    } else if before == BaudNegotiation {
      FirstSince(t, h, STATUS);
    } else if before == RpcStarting {
      FirstSince(t, b, STATUS);
    }
  }

  lemma {:induction false} Explained(t: Trace) returns (c: nat, h: nat, b: nat, s: nat)
    ensures Explains(t, StateAfter(Disconnected, t), c, h, b, s)
  {
    c, h, b, s := 0, 0, 0, 0;
    if t != [] {
      var n := |t| - 1;
      c, h, b, s := Explained(t[..n]);
      var before, now := StateAfter(Disconnected, t[..n]), StateAfter(Disconnected, t);
      ExplainsMore(t, before, c, h, b, s);
      c := if t[n].Connecting? then n else c;
      h := if now == BaudNegotiation && now != before then n else h;
      b := if now == RpcStarting && now != before then n else b;
      s := if now == RpcActive && now != before then n else s;
    }
  }

  // ----- from the trace to the state

  lemma {:induction false} StateDuring(t: Trace, c: nat, h: nat, b: nat, k: nat)
    requires c < h < b <= |t| && c < k <= b
    requires t[c].Connecting? && Greeted(t, c, h)
    requires forall i :: c < i < b ==> !Interrupts(t[i])
    requires forall i :: h < i < b ==> !IsStatus(t[i])
    ensures StateAfter(Disconnected, t[..k]) == if k <= h then AwaitingHeartbeat else BaudNegotiation
  {
    assert t[..k][..k - 1] == t[..k - 1];
    if k - 1 > c {
      StateDuring(t, c, h, b, k - 1);
    }
  }

  lemma {:induction false} StateStarting(t: Trace, c: nat, h: nat, b: nat, e: nat, k: nat)
    requires b < k <= e <= |t|
    requires Greeted(t, c, h) && BaudAnswered(t, h, b) && t[c].Connecting?
    requires forall i :: c < i < e ==> !Interrupts(t[i])
    requires forall i :: b < i < e ==> !IsStatus(t[i])
    ensures StateAfter(Disconnected, t[..k]) == RpcStarting
  {
    assert t[..k][..k - 1] == t[..k - 1];
    if k - 1 > b {
      StateStarting(t, c, h, b, e, k - 1);
    } else {
      StateDuring(t, c, h, b, b);
    }
  }

  lemma {:induction false} StateActive(t: Trace, c: nat, h: nat, b: nat, s: nat, k: nat)
    requires Established(t, c, h, b, s) && s < k <= |t|
    ensures StateAfter(Disconnected, t[..k]) == RpcActive
  {
    assert t[..k][..k - 1] == t[..k - 1];
    if k - 1 > s {
      StateActive(t, c, h, b, s, k - 1);
    } else {
      StateStarting(t, c, h, b, s, s);
    }
  }

  // ----- the theorems

  /**
   * In every run, the session is active exactly when, since an uninterrupted
   * connect, an intact HEARTBEAT was followed by a STATUS of OK or
   * ERROR_BAUD_RATE and that by a STATUS OK, each the first of its kind.
   */
  lemma ActiveIffEstablished(cfg: Config, evs: seq<Event>)
    requires EventsOk(evs)
    ensures var e := Run(cfg, INITIAL, evs);
            e.link.state == RpcActive <==> exists c: nat, h: nat, b: nat, s: nat :: Established(e.actions, c, h, b, s)
  {
    var e := Run(cfg, INITIAL, evs);
    var t := e.actions;
    RunState(cfg, INITIAL, evs);
    if e.link.state == RpcActive {
      var c, h, b, s := Explained(t);
    }
    if c: nat, h: nat, b: nat, s: nat :| Established(t, c, h, b, s) {
      StateActive(t, c, h, b, s, |t|);
      assert t[..|t|] == t;
    }
  }

  /** Once in error, only a connect or a disconnect gets the link out again. */
  lemma {:induction false} ErrorIsSticky(cfg: Config, l: Link, evs: seq<Event>)
    requires Parked(l) && EventsOk(evs) && l.state == Error
    requires Run(cfg, l, evs).link.state != Error
    ensures exists i :: 0 <= i < |evs| && (evs[i].Connect? || evs[i].Disconnect?)
  {
    var n := |evs| - 1;
    var e := Run(cfg, l, evs[..n]);
    if e.link.state != Error {
      ErrorIsSticky(cfg, l, evs[..n]);
      var i :| 0 <= i < n && (evs[..n][i].Connect? || evs[..n][i].Disconnect?);
      assert evs[i] == evs[..n][i];
    } else {
      var ev := evs[n];
      if ev.Read? {
        ErrorSurvivesItems(cfg, e.link, ev);
      }
      assert ev.Connect? || ev.Disconnect?;
    }
  }

  lemma ErrorSurvivesItems(cfg: Config, l: Link, ev: Event)
    requires Parked(l) && EventOk(ev) && ev.Read? && l.state == Error
    ensures Step(cfg, l, ev).link.state == Error
  {
    var s := l.rx + Taken(l, ev.chunk);
    ParseSized(s);
    ErrorThroughItems(cfg, l, Parse(s).items, ev.at);
  }

  lemma {:induction false} ErrorThroughItems(cfg: Config, l: Link, items: seq<Item>, at: nat)
    requires ItemsSized(items) && l.state == Error
    ensures ApplyItems(cfg, l, items, at).link.state == Error
  {
    if items != [] {
      ErrorThroughItems(cfg, l, items[..|items| - 1], at);
    }
  }

  // ----- baud rate

  /** The rate was negotiated and accepted since a connect, and no connect or disconnect followed. */
  ghost predicate Negotiated(t: Trace, c: nat, h: nat, b: nat)
  {
    && c < h < b < |t|
    && t[c].Connecting?
    && (forall i :: c < i < |t| ==> !t[i].Connecting? && !t[i].Closed?)
    && (forall i :: c < i < b ==> !Interrupts(t[i]))
    && Greeted(t, c, h)
    && BaudAnswered(t, h, b)
    && IsStatusCode(t[b], STATUS_OK)
  }

  function BaudAfter(cfg: Config, t: Trace): (r: nat)
  {
    if t == [] then INITIAL_BAUD
    else
      var n := |t| - 1;
      if t[n].Connecting? || t[n].Closed? then INITIAL_BAUD
      else if StateAfter(Disconnected, t[..n]) == BaudNegotiation && IsStatusCode(t[n], STATUS_OK) then cfg.targetBaud
      else BaudAfter(cfg, t[..n])
  }

  lemma {:induction false} BaudAfterSplit(cfg: Config, t: Trace, more: Trace)
    requires forall i :: 0 <= i < |more| ==> Neutral(more[i])
    ensures BaudAfter(cfg, t + more) == BaudAfter(cfg, t)
  {
    if more == [] {
      assert t + more == t;
    } else {
      var n := |more| - 1;
      assert (t + more)[..|t| + n] == t + more[..n];
      BaudAfterSplit(cfg, t, more[..n]);
    }
  }

  lemma BaudOfFrame(cfg: Config, l: Link, item: Item, at: nat, t: Trace)
    requires item.Frame? ==> Sized(item.bytes)
    requires l.state == StateAfter(Disconnected, t) && l.baud == BaudAfter(cfg, t)
    ensures var e := ApplyItem(cfg, l, item, at); e.link.baud == BaudAfter(cfg, t + e.actions)
  {
    var e := ApplyItem(cfg, l, item, at);
    match item
    case Skip(b) =>
      BaudAfterSplit(cfg, t, e.actions);
    case Frame(f) =>
      var rest := ProcessFrame(cfg, l, f, at).actions;
      var t1 := t + [Processed(f, at)];
      assert t1[..|t|] == t;
      assert t + e.actions == t1 + rest;
      BaudAfterSplit(cfg, t1, rest);
  }

  lemma LastItemBaud(cfg: Config, l: Link, items: seq<Item>, at: nat, t: Trace) returns (e: Effect, step: Effect)
    requires ItemsSized(items) && items != []
    requires l.state == StateAfter(Disconnected, t)
    ensures e == ApplyItems(cfg, l, items[..|items| - 1], at) && ApplyItems(cfg, l, items, at) == Then(e, step)
    ensures e.link.baud == BaudAfter(cfg, t + e.actions) ==>
              step.link.baud == BaudAfter(cfg, t + e.actions + step.actions)
  {
    e := ApplyItems(cfg, l, items[..|items| - 1], at);
    step := ApplyItem(cfg, e.link, items[|items| - 1], at);
    ApplyItemsState(cfg, l, items[..|items| - 1], at);
    StateAfterSplit(Disconnected, t, e.actions);
    if e.link.baud == BaudAfter(cfg, t + e.actions) {
      BaudOfFrame(cfg, e.link, items[|items| - 1], at, t + e.actions);
    }
  }

  lemma {:induction false} BaudOfItems(cfg: Config, l: Link, items: seq<Item>, at: nat, t: Trace)
    requires ItemsSized(items)
    requires l.state == StateAfter(Disconnected, t) && l.baud == BaudAfter(cfg, t)
    ensures var e := ApplyItems(cfg, l, items, at); e.link.baud == BaudAfter(cfg, t + e.actions)
  {
    if items == [] {
      assert t + [] == t;
    } else {
      BaudOfItems(cfg, l, items[..|items| - 1], at, t);
      var e, step := LastItemBaud(cfg, l, items, at, t);
      Assoc(t, e.actions, step.actions);
    }
  }

  lemma BaudOfConnect(cfg: Config, l: Link, at: nat, t: Trace)
    requires l.baud == BaudAfter(cfg, t)
    ensures var e := ConnectLink(l, at); e.link.baud == BaudAfter(cfg, t + e.actions)
  {
    if l.state == Disconnected || l.state == Error {
      Assoc(t, [BaudSet(INITIAL_BAUD)], [Connecting(at, l.rx)]);
    } else {
      assert t + [] == t;
    }
  }

  lemma BaudOfDisconnect(cfg: Config, l: Link, t: Trace)
    ensures BaudAfter(cfg, t + DisconnectLink(l).actions) == INITIAL_BAUD
  {
    var stop := if l.state == RpcActive then [Transmitted(Control(STOP_RPC))] else [];
    var t1 := t + stop + [Closed(l.rx)];
    assert t + DisconnectLink(l).actions == t1 + [BaudSet(INITIAL_BAUD)];
    assert t1[|t1| - 1].Closed?;
    BaudAfterSplit(cfg, t1, [BaudSet(INITIAL_BAUD)]);
  }

  lemma BaudOfWatchdog(cfg: Config, l: Link, at: nat, t: Trace)
    requires l.baud == BaudAfter(cfg, t)
    ensures var e := CheckWatchdog(cfg, l, at); e.link.baud == BaudAfter(cfg, t + e.actions)
  {
    var more := CheckWatchdog(cfg, l, at).actions;
    if more == [] {
      assert t + more == t;
    } else {
      assert (t + more)[..|t|] == t;
    }
  }

  lemma BaudOfStep(cfg: Config, l: Link, ev: Event, t: Trace)
    requires Parked(l)
    requires l.state == StateAfter(Disconnected, t) && l.baud == BaudAfter(cfg, t)
    ensures var e := Step(cfg, l, ev); e.link.baud == BaudAfter(cfg, t + e.actions)
  {
    match ev
    case Read(chunk, at) =>
      ParseSized(l.rx + Taken(l, chunk));
      BaudOfItems(cfg, l, Parse(l.rx + Taken(l, chunk)).items, at, t);
    case Connect(at) => BaudOfConnect(cfg, l, at, t);
    case Disconnect => BaudOfDisconnect(cfg, l, t);
    case WatchdogCheck(at) => BaudOfWatchdog(cfg, l, at, t);
    case HeartbeatCheck(at) => BaudAfterSplit(cfg, t, CheckHeartbeat(cfg, l, at).actions);
    case Send(data) => BaudAfterSplit(cfg, t, BeginSend(l, data).actions);
    case Pass(i, taken) => BaudAfterSplit(cfg, t, SendPass(l, i, taken).actions);
  }

  lemma {:induction false} RunBaud(cfg: Config, evs: seq<Event>)
    requires EventsOk(evs)
    ensures var e := Run(cfg, INITIAL, evs); e.link.baud == BaudAfter(cfg, e.actions)
  {
    if evs != [] {
      var n := |evs| - 1;
      RunBaud(cfg, evs[..n]);
      RunState(cfg, INITIAL, evs[..n]);
      var e := Run(cfg, INITIAL, evs[..n]);
      BaudOfStep(cfg, e.link, evs[n], e.actions);
    }
  }

  lemma NegotiatedNow(t: Trace, c: nat, h: nat)
    requires t != [] && IsStatusCode(t[|t| - 1], STATUS_OK)
    requires Explains(t[..|t| - 1], BaudNegotiation, c, h, 0, 0)
    ensures Negotiated(t, c, h, |t| - 1)
  {
    Carried(t, c, h, 0, 0);
    var p := t[..|t| - 1];
    assert forall i :: 0 <= i < |p| ==> t[i] == p[i];
  }

  lemma NegotiatedStill(t: Trace, c: nat, h: nat, b: nat)
    requires t != [] && !t[|t| - 1].Connecting? && !t[|t| - 1].Closed?
    requires Negotiated(t[..|t| - 1], c, h, b)
    ensures Negotiated(t, c, h, b)
  {
    Carried(t, c, h, b, 0);
    var p := t[..|t| - 1];
    assert forall i :: 0 <= i < |p| ==> t[i] == p[i];
  }

  lemma {:induction false} BaudExplained(cfg: Config, t: Trace) returns (found: bool, c: nat, h: nat, b: nat)
    ensures found ==> Negotiated(t, c, h, b)
    ensures BaudAfter(cfg, t) == if found then cfg.targetBaud else INITIAL_BAUD
  {
    found, c, h, b := false, 0, 0, 0;
    if t != [] {
      var n := |t| - 1;
      if t[n].Connecting? || t[n].Closed? {
      } else if StateAfter(Disconnected, t[..n]) == BaudNegotiation && IsStatusCode(t[n], STATUS_OK) {
        var s;
        c, h, b, s := Explained(t[..n]);
        NegotiatedNow(t, c, h);
        found, b := true, n;
      } else {
        found, c, h, b := BaudExplained(cfg, t[..n]);
        if found {
          NegotiatedStill(t, c, h, b);
        }
      }
    }
  }

  lemma {:induction false} NegotiatedBaud(cfg: Config, t: Trace, c: nat, h: nat, b: nat)
    requires Negotiated(t, c, h, b)
    ensures BaudAfter(cfg, t) == cfg.targetBaud
  {
    var n := |t| - 1;
    if n == b {
      StateDuring(t, c, h, b, b);
    } else if !(StateAfter(Disconnected, t[..n]) == BaudNegotiation && IsStatusCode(t[n], STATUS_OK)) {
      NegotiatedBaud(cfg, t[..n], c, h, b);
    }
  }

  /**
   * In every run the UART runs at the configured rate exactly when a rate
   * negotiation that succeeded is still in force, and at 9600 otherwise.
   */
  lemma BaudIsNegotiated(cfg: Config, evs: seq<Event>)
    requires EventsOk(evs)
    ensures var e := Run(cfg, INITIAL, evs);
            if exists c: nat, h: nat, b: nat :: Negotiated(e.actions, c, h, b)
            then e.link.baud == cfg.targetBaud
            else e.link.baud == 9600
  {
    RunBaud(cfg, evs);
    var t := Run(cfg, INITIAL, evs).actions;
    var found, c, h, b := BaudExplained(cfg, t);
    if c: nat, h: nat, b: nat :| Negotiated(t, c, h, b) {
      NegotiatedBaud(cfg, t, c, h, b);
    }
  }
}
