/**
 * From a connect to delivered data: a peer that plays its part of the
 * handshake gets the session going, however its bytes arrive.
 */
module ExpansionSession {
  import opened Streams
  import opened ExpansionFrames
  import opened ExpansionLink
  import opened ExpansionStream

  // ----- without resets, the frames alone decide the state

  function OverItem(s: State, item: Item): (r: State)
  {
    if item.Frame? then After(s, Processed(item.bytes, 0)) else s
  }

  function OverItems(s: State, items: seq<Item>): (r: State)
  {
    if items == [] then s else OverItem(OverItems(s, items[..|items| - 1]), items[|items| - 1])
  }

  lemma OverItemsSnoc(s: State, items: seq<Item>, item: Item)
    ensures OverItems(s, items + [item]) == OverItem(OverItems(s, items), item)
  {
    assert (items + [item])[..|items|] == items;
  }

  lemma OverAction(s: State, a: Action)
    requires !a.Connecting? && !a.Closed? && !a.Expired?
    ensures After(s, a) == if ItemOfAction(a) == [] then s else OverItem(s, ItemOfAction(a)[0])
    ensures |ItemOfAction(a)| <= 1
  {
  }

  lemma {:induction false} FramesDecideState(s: State, t: Trace)
    requires NoReset(t)
    ensures StateAfter(s, t) == OverItems(s, ItemsOf(t))
  {
    if t != [] {
      var init, last := t[..|t| - 1], t[|t| - 1];
      FramesDecideState(s, init);
      OverAction(StateAfter(s, init), last);
      if ItemOfAction(last) == [] {
        assert ItemsOf(t) == ItemsOf(init);
      } else {
        assert ItemsOf(t) == ItemsOf(init) + [ItemOfAction(last)[0]];
        OverItemsSnoc(s, ItemsOf(init), ItemOfAction(last)[0]);
      }
    }
  }

  // ----- cutting a trace between two items

  /** Where `t` is cut between the items of `a` and those of `b`. */
  ghost predicate CutsAt(t: Trace, k: nat, a: seq<Item>, b: seq<Item>)
  {
    k <= |t| && ItemsOf(t[..k]) == a && ItemsOf(t[k..]) == b
  }

  lemma CutExtends(init: Trace, last: Action, k: nat, a: seq<Item>, b: seq<Item>)
    requires CutsAt(init, k, a, b)
    ensures CutsAt(init + [last], k, a, b + ItemOfAction(last))
  {
    assert (init + [last])[..k] == init[..k];
    assert (init + [last])[k..] == init[k..] + [last];
    ItemsOfSnoc(init[k..], last);
  }

  /** Removing the last item from a list of items in two parts. */
  lemma LastOfTwo(items: seq<Item>, last: seq<Item>, a: seq<Item>, b: seq<Item>)
    requires items + last == a + b && |last| == 1 && b != []
    ensures items == a + b[..|b| - 1] && last == [b[|b| - 1]]
  {
    assert last[0] == (items + last)[|items|] == (a + b)[|a + b| - 1];
    assert items == (items + last)[..|items|] == (a + b)[..|a + b| - 1];
  }

  lemma LastAction(t: Trace) returns (init: Trace, last: Action)
    requires t != []
    ensures t == init + [last] && |init| < |t|
    ensures ItemsOf(t) == ItemsOf(init) + ItemOfAction(last) && |ItemOfAction(last)| <= 1
  {
    init, last := t[..|t| - 1], t[|t| - 1];
  }

  lemma {:induction false} CutTrace(t: Trace, a: seq<Item>, b: seq<Item>) returns (k: nat)
    requires ItemsOf(t) == a + b
    ensures CutsAt(t, k, a, b)
    decreases |t|
  {
    if b == [] {
      k := |t|;
      assert t[..k] == t && t[k..] == [] && a + b == a;
    } else {
      var init, last := LastAction(t);
      var rest := if ItemOfAction(last) == [] then b else b[..|b| - 1];
      SplitLast(ItemsOf(init), ItemOfAction(last), a, b);
      k := CutTrace(init, a, rest);
      CutExtends(init, last, k, a, rest);
    }
  }

  /** The items before the last action, in the two parts. */
  lemma SplitLast(items: seq<Item>, last: seq<Item>, a: seq<Item>, b: seq<Item>)
    requires items + last == a + b && |last| <= 1 && b != []
    ensures var rest := if last == [] then b else b[..|b| - 1]; items == a + rest && rest + last == b
  {
    if last == [] {
      assert items + last == items && b + last == b;
    } else {
      LastOfTwo(items, last, a, b);
      assert b == b[..|b| - 1] + [b[|b| - 1]];
    }
  }

  /** Without a DATA frame nothing is delivered and nothing acknowledged. */
  lemma {:induction false} NoDataNoDelivery(cfg: Config, s: State, t: Trace)
    requires forall i :: 0 <= i < |t| ==> !IntactOf(t[i], DATA)
    ensures Owed(cfg, s, t).delivered == [] && Owed(cfg, s, t).acks == []
  {
    if t != [] {
      NoDataNoDelivery(cfg, s, t[..|t| - 1]);
    }
  }

  /** No intact DATA frame is among the items. */
  ghost predicate NoData(items: seq<Item>)
  {
    forall i :: 0 <= i < |items| && items[i].Frame? ==> !IntactOf(Processed(items[i].bytes, 0), DATA)
  }

  lemma {:induction false} ProcessedIsItem(t: Trace, i: nat)
    requires i < |t| && t[i].Processed?
    ensures Frame(t[i].frame) in ItemsOf(t)
  {
    var n := |t| - 1;
    if i < n {
      ProcessedIsItem(t[..n], i);
    }
  }

  lemma NoDataInTrace(t: Trace)
    requires NoData(ItemsOf(t))
    ensures forall i :: 0 <= i < |t| ==> !IntactOf(t[i], DATA)
  {
    forall i | 0 <= i < |t| && t[i].Processed?
      ensures !IntactOf(t[i], DATA)
    {
      ProcessedIsItem(t, i);
      var k :| 0 <= k < |ItemsOf(t)| && ItemsOf(t)[k] == Frame(t[i].frame);
      assert ItemsOf(t)[k].Frame?;
    }
  }

  // ----- the peer's part of the handshake

  /** A heartbeat, an answer to the rate request and an answer to the session request. */
  function Handshake(code: byte): (frames: seq<Bytes>)
  {
    [Encode(Heartbeat), Encode(Status(code)), Encode(Status(STATUS_OK))]
  }

  lemma StatusFrame(code: byte)
    ensures var f := Encode(Status(code)); Intact(f) && f[0] == STATUS && f[1] == code
  {
    EncodeIntact(Status(code));
  }

  lemma HandshakeIntact(code: byte)
    ensures AllIntact(Handshake(code)) && NoData(FrameItems(Handshake(code)))
  {
    EncodeIntact(Heartbeat);
    StatusFrame(code);
    StatusFrame(STATUS_OK);
  }

  lemma ThreeFramesActivate(h: Bytes, b: Bytes, s: Bytes)
    requires Intact(h) && h[0] == HEARTBEAT
    requires Intact(b) && b[0] == STATUS && (b[1] == STATUS_OK || b[1] == STATUS_ERROR_BAUD_RATE)
    requires Intact(s) && s[0] == STATUS && s[1] == STATUS_OK
    ensures OverItems(AwaitingHeartbeat, FrameItems([h, b, s])) == RpcActive
  {
    assert FrameItems([h, b, s]) == [Frame(h), Frame(b), Frame(s)];
    OverItemsSnoc(AwaitingHeartbeat, [], Frame(h));
    OverItemsSnoc(AwaitingHeartbeat, [Frame(h)], Frame(b));
    OverItemsSnoc(AwaitingHeartbeat, [Frame(h), Frame(b)], Frame(s));
    assert [] + [Frame(h)] == [Frame(h)];
    assert [Frame(h)] + [Frame(b)] == [Frame(h), Frame(b)];
    assert [Frame(h), Frame(b)] + [Frame(s)] == [Frame(h), Frame(b), Frame(s)];
  }

  lemma HandshakeFrames(code: byte) returns (h: Bytes, b: Bytes, s: Bytes)
    ensures Handshake(code) == [h, b, s]
    ensures Intact(h) && h[0] == HEARTBEAT
    ensures Intact(b) && b[0] == STATUS && b[1] == code
    ensures Intact(s) && s[0] == STATUS && s[1] == STATUS_OK
  {
    h, b, s := Encode(Heartbeat), Encode(Status(code)), Encode(Status(STATUS_OK));
    EncodeIntact(Heartbeat);
    StatusFrame(code);
    StatusFrame(STATUS_OK);
  }

  lemma HandshakeActivates(code: byte)
    requires code == STATUS_OK || code == STATUS_ERROR_BAUD_RATE
    ensures OverItems(AwaitingHeartbeat, FrameItems(Handshake(code))) == RpcActive
  {
    var h, b, s := HandshakeFrames(code);
    ThreeFramesActivate(h, b, s);
  }

  /** A trace whose first items activate the session and carry no data, and whose other items are intact frames. */
  lemma TraceInTwoParts(cfg: Config, t: Trace, first: seq<Item>, frames: seq<Bytes>)
    requires OverItems(AwaitingHeartbeat, first) == RpcActive && NoData(first)
    requires AllIntact(frames) && NoReset(t) && ItemsOf(t) == first + FrameItems(frames)
    ensures StateAfter(AwaitingHeartbeat, t) == RpcActive
    ensures Owed(cfg, AwaitingHeartbeat, t).delivered == if cfg.callback then Payloads(frames) else []
    ensures Owed(cfg, AwaitingHeartbeat, t).acks == AcksFor(frames)
  {
    var k := CutTrace(t, first, FrameItems(frames));
    var t1, t2 := t[..k], t[k..];
    assert t == t1 + t2;
    NoResetJoin(t1, t2);
    JoinParts(cfg, t1, t2, frames);
  }

  lemma JoinParts(cfg: Config, t1: Trace, t2: Trace, frames: seq<Bytes>)
    requires NoReset(t1) && OverItems(AwaitingHeartbeat, ItemsOf(t1)) == RpcActive && NoData(ItemsOf(t1))
    requires AllIntact(frames) && NoReset(t2) && ItemsOf(t2) == FrameItems(frames)
    ensures StateAfter(AwaitingHeartbeat, t1 + t2) == RpcActive
    ensures Owed(cfg, AwaitingHeartbeat, t1 + t2).delivered == if cfg.callback then Payloads(frames) else []
    ensures Owed(cfg, AwaitingHeartbeat, t1 + t2).acks == AcksFor(frames)
  {
    FramesDecideState(AwaitingHeartbeat, t1);
    NoDataInTrace(t1);
    NoDataNoDelivery(cfg, AwaitingHeartbeat, t1);
    SessionOwes(cfg, t2, frames);
    JoinTallies(cfg, AwaitingHeartbeat, t1, t2);
  }

  /** If nothing is delivered or acknowledged in the first part, the second part has it all. */
  lemma JoinTallies(cfg: Config, s: State, t1: Trace, t2: Trace)
    requires StateAfter(s, t1) == RpcActive && Owed(cfg, s, t1).delivered == [] && Owed(cfg, s, t1).acks == []
    ensures StateAfter(s, t1 + t2) == StateAfter(RpcActive, t2)
    ensures Owed(cfg, s, t1 + t2).delivered == Owed(cfg, RpcActive, t2).delivered
    ensures Owed(cfg, s, t1 + t2).acks == Owed(cfg, RpcActive, t2).acks
  {
    StateAfterSplit(s, t1, t2);
    OwedSplit(cfg, s, t1, t2);
  }

  /**
   * After a connect, the bytes of a heartbeat, of an answer to the rate
   * request and of an OK to the session request, followed by any intact
   * frames, lead to an active session that delivers those frames' payloads and
   * acknowledges each DATA frame once, however the bytes are cut into reads and
   * whatever timer checks and sends come in between, as long as nothing resets
   * the link.
   */
  lemma ConnectToDelivery(cfg: Config, l: Link, at: nat, evs: seq<Event>, code: byte, frames: seq<Bytes>)
    requires l.state == Disconnected || l.state == Error
    requires code == STATUS_OK || code == STATUS_ERROR_BAUD_RATE
    requires cfg.callback && AllIntact(frames) && EventsOk(evs) && Parked(ConnectLink(l, at).link)
    requires Received(evs) == Concat(Handshake(code) + frames)
    requires NoReset(Run(cfg, ConnectLink(l, at).link, evs).actions)
    ensures var e := Run(cfg, ConnectLink(l, at).link, evs);
            && e.link.state == RpcActive && e.link.rx == []
            && Done(e.actions).delivered == Payloads(frames)
            && Done(e.actions).acks == AcksFor(frames)
  {
    var l0 := ConnectLink(l, at).link;
    var t := Run(cfg, l0, evs).actions;
    HandshakeIntact(code);
    SplitItems(Handshake(code), frames);
    StreamDecides(cfg, l0, evs);
    assert l0.rx + Received(evs) == Received(evs);
    HandshakeActivates(code);
    TraceInTwoParts(cfg, t, FrameItems(Handshake(code)), frames);
    RunState(cfg, l0, evs);
    ProtocolIsFollowed(cfg, l0, evs);
  }

  lemma HandshakeLength(code: byte)
    ensures |Concat(Handshake(code))| == 8
  {
    var f := Handshake(code);
    var two: seq<Bytes> := f[1..];
    var one: seq<Bytes> := two[1..];
    assert two == [f[1], f[2]] && one == [f[2]];
    assert Concat(one) == f[2] + Concat([]) && Concat(two) == f[1] + Concat(one) && Concat(f) == f[0] + Concat(two);
  }

  /** A single read of the whole handshake is one such case: from any idle or failed link the session starts. */
  lemma OneReadHandshake(cfg: Config, l: Link, at: nat, code: byte)
    requires (l.state == Disconnected || l.state == Error) && cfg.callback
    requires code == STATUS_OK || code == STATUS_ERROR_BAUD_RATE
    ensures Parked(ConnectLink(l, at).link) && |Concat(Handshake(code))| <= READ_SIZE
    ensures var e := Run(cfg, ConnectLink(l, at).link, [Read(Concat(Handshake(code)), at)]);
            e.link.state == RpcActive && e.link.rx == []
  {
    HandshakeLength(code);
    NoResetInOneRead(cfg, ConnectLink(l, at).link, Concat(Handshake(code)), at);
    assert Handshake(code) + [] == Handshake(code);
    ConnectToDelivery(cfg, l, at, [Read(Concat(Handshake(code)), at)], code, []);
  }

  lemma NoResetInOneRead(cfg: Config, l: Link, bytes: Bytes, at: nat)
    requires Parked(l) && |bytes| <= READ_SIZE
    ensures var evs := [Read(bytes, at)]; EventsOk(evs) && Received(evs) == bytes && NoReset(Run(cfg, l, evs).actions)
  {
    var evs := [Read(bytes, at)];
    assert evs[..0] == [];
    assert Received(evs) == [] + bytes == bytes;
    ReceiveTrace(cfg, l, bytes, at);
    var t := Receive(cfg, l, bytes, at).actions;
    assert Run(cfg, l, evs).actions == [] + t == t;
  }

  lemma SplitItems(a: seq<Bytes>, b: seq<Bytes>)
    requires AllIntact(a) && AllIntact(b)
    ensures Parse(Concat(a + b)) == Parsed(FrameItems(a) + FrameItems(b), [])
  {
    assert FrameItems(a + b) == FrameItems(a) + FrameItems(b);
    assert forall i :: 0 <= i < |a + b| ==> Intact((a + b)[i]);
    ParseFrames(a + b);
  }
}
