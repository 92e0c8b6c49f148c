/**
 * What the bridge writes to the UART. DATA frames, acknowledgements and
 * heartbeats share the line; the data they carry is the data handed to the
 * sender, whatever is written in between.
 */
module ExpansionSender {
  import opened Streams
  import opened ExpansionFrames
  import opened ExpansionLink
  import opened ExpansionStream

  /** The frames that a trace writes, in order. */
  function Written(t: Trace): (messages: seq<Message>)
  {
    if t == [] then []
    else
      var n := |t| - 1;
      Written(t[..n]) + WrittenBy(t[n])
  }

  function WrittenBy(a: Action): (r: seq<Message>) { if a.Transmitted? then [a.message] else [] }

  lemma {:induction false} WrittenSplit(a: Trace, b: Trace)
    ensures Written(a + b) == Written(a) + Written(b)
  {
    if b == [] {
      assert a + b == a;
    } else {
      var n := |b| - 1;
      assert (a + b)[..|a| + n] == a + b[..n];
      WrittenSplit(a, b[..n]);
      Assoc(Written(a), Written(b[..n]), WrittenBy(b[n]));
    }
  }

  // ----- the data among the frames

  /** The payloads of the DATA frames in a list of messages, one after the other. */
  function DataIn(messages: seq<Message>): (r: Bytes)
  {
    if messages == [] then [] else DataOf(messages[0]) + DataIn(messages[1..])
  }

  function DataOf(m: Message): (r: Bytes) { if m.Data? then m.payload else [] }

  lemma {:induction false} DataInSplit(a: seq<Message>, b: seq<Message>)
    ensures DataIn(a + b) == DataIn(a) + DataIn(b)
  {
    if a == [] {
      assert a + b == b;
    } else {
      assert (a + b)[1..] == a[1..] + b;
      DataInSplit(a[1..], b);
      Assoc(DataOf(a[0]), DataIn(a[1..]), DataIn(b));
    }
  }

  lemma EncodedPayload(m: Message)
    requires Sendable(m)
    ensures Intact(Encode(m)) && PayloadOf(Encode(m)) == DataOf(m)
  {
    EncodeIntact(m);
  }

  /** On the wire, messages are intact frames, and their payloads are those of the DATA messages among them. */
  lemma {:induction false} WireCarries(messages: seq<Message>)
    requires AllSendable(messages)
    ensures AllIntact(Wire(messages)) && Payloads(Wire(messages)) == DataIn(messages)
  {
    if messages != [] {
      WireCarries(messages[1..]);
      EncodedPayload(messages[0]);
      PayloadsPrepend(Encode(messages[0]), Wire(messages[1..]));
    }
  }

  // ----- what is sent and what is given up

  /** The bytes that an action takes off a send: written in a DATA frame, or given up. */
  function OutgoingBy(a: Action): (r: Bytes)
  {
    match a
    case Transmitted(m) => DataOf(m)
    case Dropped(data) => data
    case _ => []
  }

  function Outgoing(t: Trace): (r: Bytes)
  {
    if t == [] then []
    else
      var n := |t| - 1;
      Outgoing(t[..n]) + OutgoingBy(t[n])
  }

  lemma OutgoingSnoc(t: Trace, a: Action)
    ensures Outgoing(t + [a]) == Outgoing(t) + OutgoingBy(a)
  {
    assert (t + [a])[..|t|] == t;
  }

  lemma {:induction false} OutgoingSplit(a: Trace, b: Trace)
    ensures Outgoing(a + b) == Outgoing(a) + Outgoing(b)
  {
    if b == [] {
      assert a + b == a;
    } else {
      var init, last := b[..|b| - 1], b[|b| - 1];
      OutgoingSplit(a, init);
      assert a + b == (a + init) + [last];
      OutgoingSnoc(a + init, last);
      Assoc(Outgoing(a), Outgoing(init), OutgoingBy(last));
    }
  }

  /** No send was given up with bytes left to write. */
  predicate NoLoss(t: Trace)
  {
    t == [] || (NoLoss(t[..|t| - 1]) && !Loses(t[|t| - 1]))
  }

  predicate Loses(a: Action) { a.Dropped? && a.data != [] }

  lemma {:induction false} NoLossSplit(a: Trace, b: Trace)
    ensures NoLoss(a + b) <==> NoLoss(a) && NoLoss(b)
  {
    if b == [] {
      assert a + b == a;
    } else {
      var n := |b| - 1;
      assert (a + b)[..|a| + n] == a + b[..n];
      NoLossSplit(a, b[..n]);
    }
  }

  /** Pieces that are no longer than what they should be add up to it exactly if each is it. */
  lemma PiecesAddUp(a: Bytes, b: Bytes, x: Bytes, y: Bytes)
    requires |a| <= |x| && |b| <= |y|
    ensures a + b == x + y <==> a == x && b == y
  {
    if a + b == x + y {
      assert |a + b| == |x + y|;
      assert a == (a + b)[..|a|] && x == (x + y)[..|x|];
      assert b == (a + b)[|a|..] && y == (x + y)[|x|..];
    }
  }

  lemma ActionWrites(a: Action)
    ensures var data := DataIn(WrittenBy(a));
            if Loses(a) then |data| < |OutgoingBy(a)| else data == OutgoingBy(a)
  {
    if a.Transmitted? {
      assert DataIn([a.message]) == DataOf(a.message) + DataIn([]);
    }
  }

  /** What is written is all that goes out exactly if nothing is given up, and shorter otherwise. */
  lemma {:induction false} WrittenIsOutgoingIff(t: Trace)
    ensures NoLoss(t) ==> DataIn(Written(t)) == Outgoing(t)
    ensures !NoLoss(t) ==> |DataIn(Written(t))| < |Outgoing(t)|
  {
    if t != [] {
      var n := |t| - 1;
      WrittenIsOutgoingIff(t[..n]);
      ActionWrites(t[n]);
      DataInSplit(Written(t[..n]), WrittenBy(t[n]));
    }
  }

  // ----- events that send nothing

  /** Actions that write nothing but acknowledgements and control frames. */
  ghost predicate NoData(t: Trace)
  {
    forall i :: 0 <= i < |t| ==> OutgoingBy(t[i]) == []
  }

  lemma {:induction false} NoDataOutgoing(t: Trace)
    requires NoData(t)
    ensures Outgoing(t) == [] && NoLoss(t) && AllSendable(Written(t))
  {
    if t != [] {
      NoDataOutgoing(t[..|t| - 1]);
    }
  }

  lemma ItemNoData(cfg: Config, l: Link, item: Item, at: nat)
    requires item.Frame? ==> Sized(item.bytes)
    ensures var e := ApplyItem(cfg, l, item, at); NoData(e.actions) && e.link.sends == l.sends
  {
  }

  lemma {:induction false} ItemsNoData(cfg: Config, l: Link, items: seq<Item>, at: nat)
    requires ItemsSized(items)
    ensures var e := ApplyItems(cfg, l, items, at); NoData(e.actions) && e.link.sends == l.sends
  {
    if items != [] {
      var n := |items| - 1;
      ItemsNoData(cfg, l, items[..n], at);
      var e := ApplyItems(cfg, l, items[..n], at);
      ItemNoData(cfg, e.link, items[n], at);
    }
  }

  lemma OtherSendsNothing(cfg: Config, l: Link, ev: Event)
    requires |l.rx| <= RX_BUF_SIZE && !ev.Send? && !ev.Pass?
    ensures var e := Step(cfg, l, ev);
            && e.link.sends == l.sends
            && Outgoing(e.actions) == [] && NoLoss(e.actions) && AllSendable(Written(e.actions))
  {
    if ev.Read? {
      var s := l.rx + Taken(l, ev.chunk);
      ParseSized(s);
      ItemsNoData(cfg, l, Parse(s).items, ev.at);
    }
    NoDataOutgoing(Step(cfg, l, ev).actions);
  }

  // ----- one event

  /** The argument of expansion_send_rpc, for an event that is a call of it. */
  function HandedBy(ev: Event): (r: Bytes) { if ev.Send? then ev.data else [] }

  /** Everything that expansion_send_rpc was called with. */
  function Handed(evs: seq<Event>): (r: Bytes)
  {
    if evs == [] then []
    else
      var n := |evs| - 1;
      Handed(evs[..n]) + HandedBy(evs[n])
  }

  /** A call with something to send finds an active session; a pass of an open send succeeds. */
  predicate Complete(l: Link, ev: Event)
  {
    && (ev.Send? && ev.data != [] ==> l.state == RpcActive)
    && (ev.Pass? && ev.send < |l.sends| ==> ev.taken)
  }

  ghost predicate AllFilled(sends: seq<Bytes>)
  {
    forall i :: 0 <= i < |sends| ==> sends[i] != []
  }

  lemma OneAction(a: Action)
    ensures Outgoing([a]) == OutgoingBy(a)
    ensures NoLoss([a]) <==> !Loses(a)
    ensures Written([a]) == WrittenBy(a)
  {
    assert [a][..0] == [];
  }

  lemma PassKeepsFilled(sends: seq<Bytes>, i: nat, rest: Bytes)
    requires AllFilled(sends) && i < |sends|
    ensures AllFilled(Shorten(sends, i, rest))
  {
  }

  lemma PassLoses(l: Link, i: nat, taken: bool)
    requires AllFilled(l.sends)
    ensures var e := SendPass(l, i, taken);
            && AllFilled(e.link.sends) && AllSendable(Written(e.actions))
            && (NoLoss(e.actions) <==> Complete(l, Pass(i, taken)))
  {
    if i < |l.sends| {
      var data := l.sends[i];
      PassKeepsFilled(l.sends, i, if taken then data[ChunkSize(data)..] else []);
      OneAction(if taken then Transmitted(Data(data[..ChunkSize(data)])) else Dropped(data));
    }
  }

  /** An event gives up bytes exactly if it is not complete; what it writes can be encoded. */
  lemma StepLoses(cfg: Config, l: Link, ev: Event)
    requires |l.rx| <= RX_BUF_SIZE && AllFilled(l.sends)
    ensures var e := Step(cfg, l, ev);
            AllFilled(e.link.sends) && AllSendable(Written(e.actions)) && (NoLoss(e.actions) <==> Complete(l, ev))
  {
    if ev.Send? {
      OneAction(Dropped(ev.data));
    } else if ev.Pass? {
      PassLoses(l, ev.send, ev.taken);
    } else {
      OtherSendsNothing(cfg, l, ev);
    }
  }

  // ----- every run

  /** Every call and every pass of a run is complete when its turn comes. */
  ghost predicate AllComplete(cfg: Config, l: Link, evs: seq<Event>)
    requires Parked(l) && EventsOk(evs)
  {
    evs == []
    || var n := |evs| - 1;
       AllComplete(cfg, l, evs[..n]) && Complete(Run(cfg, l, evs[..n]).link, evs[n])
  }

  /** In every run bytes are given up exactly if a call found no active session or a write failed. */
  lemma {:induction false} LossIff(cfg: Config, l: Link, evs: seq<Event>)
    requires Parked(l) && EventsOk(evs) && AllFilled(l.sends)
    ensures var e := Run(cfg, l, evs);
            && AllFilled(e.link.sends) && AllSendable(Written(e.actions))
            && (NoLoss(e.actions) <==> AllComplete(cfg, l, evs))
  {
    if evs != [] {
      var n := |evs| - 1;
      LossIff(cfg, l, evs[..n]);
      var e := Run(cfg, l, evs[..n]);
      var t := Step(cfg, e.link, evs[n]).actions;
      StepLoses(cfg, e.link, evs[n]);
      NoLossSplit(e.actions, t);
      WrittenSplit(e.actions, t);
    }
  }

  // ----- what becomes of the bytes handed over

  /** How many bytes of a stream have the value `b`, or how many there are at all. */
  function Amount(s: Bytes, b: Option<byte>): (n: nat)
  {
    if s == [] then 0 else Amount(s[..|s| - 1], b) + if b == None || b == Some(s[|s| - 1]) then 1 else 0
  }

  lemma {:induction false} AmountSplit(x: Bytes, y: Bytes, b: Option<byte>)
    ensures Amount(x + y, b) == Amount(x, b) + Amount(y, b)
  {
    if y == [] {
      assert x + y == x;
    } else {
      assert (x + y)[..|x + y| - 1] == x + y[..|y| - 1];
      AmountSplit(x, y[..|y| - 1], b);
    }
  }

  lemma {:induction false} AmountIsLength(s: Bytes)
    ensures Amount(s, None) == |s|
  {
    if s != [] {
      AmountIsLength(s[..|s| - 1]);
    }
  }

  /** The same for all open sends together. */
  function Open(sends: seq<Bytes>, b: Option<byte>): (n: nat)
  {
    if sends == [] then 0 else Amount(sends[0], b) + Open(sends[1..], b)
  }

  lemma {:induction false} OpenSplit(x: seq<Bytes>, y: seq<Bytes>, b: Option<byte>)
    ensures Open(x + y, b) == Open(x, b) + Open(y, b)
  {
    if x == [] {
      assert x + y == y;
    } else {
      assert (x + y)[1..] == x[1..] + y;
      OpenSplit(x[1..], y, b);
    }
  }

  lemma OneOpen(data: Bytes, b: Option<byte>)
    ensures Open(Left(data), b) == Amount(data, b)
  {
    if data != [] {
      assert Open([data], b) == Amount(data, b) + Open([], b);
    }
  }

  /** An open send loses just the front part that leaves it. */
  lemma ShortenConserves(sends: seq<Bytes>, i: nat, out: Bytes, rest: Bytes, b: Option<byte>)
    requires i < |sends| && sends[i] == out + rest
    ensures Amount(out, b) + Open(Shorten(sends, i, rest), b) == Open(sends, b)
  {
    var middle := Left(rest);
    assert sends == sends[..i] + [sends[i]] + sends[i + 1..];
    OpenSplit(sends[..i] + [sends[i]], sends[i + 1..], b);
    OpenSplit(sends[..i], [sends[i]], b);
    OpenSplit(sends[..i] + middle, sends[i + 1..], b);
    OpenSplit(sends[..i], middle, b);
    OneOpen(rest, b);
    AmountSplit(out, rest, b);
    assert Open([sends[i]], b) == Amount(sends[i], b) + Open([], b);
  }

  /** What leaves open send `i` in a pass, and what is left of it. */
  lemma PassOutgoing(l: Link, i: nat, taken: bool) returns (out: Bytes, rest: Bytes)
    requires i < |l.sends|
    ensures l.sends[i] == out + rest
    ensures Outgoing(SendPass(l, i, taken).actions) == out
    ensures SendPass(l, i, taken).link.sends == Shorten(l.sends, i, rest)
  {
    var data := l.sends[i];
    if taken {
      out, rest := data[..ChunkSize(data)], data[ChunkSize(data)..];
      OneAction(Transmitted(Data(out)));
    } else {
      out, rest := data, [];
      OneAction(Dropped(data));
    }
  }

  lemma BeginConserves(l: Link, data: Bytes, b: Option<byte>)
    ensures var e := BeginSend(l, data);
            Amount(Outgoing(e.actions), b) + Open(e.link.sends, b) == Open(l.sends, b) + Amount(data, b)
  {
    if l.state == RpcActive {
      OneOpen(data, b);
      OpenSplit(l.sends, Left(data), b);
    } else {
      OneAction(Dropped(data));
    }
  }

  /** An event moves bytes from the open sends out, or adds its own to them. */
  lemma StepConservesData(cfg: Config, l: Link, ev: Event, b: Option<byte>)
    requires |l.rx| <= RX_BUF_SIZE
    ensures var e := Step(cfg, l, ev);
            Amount(Outgoing(e.actions), b) + Open(e.link.sends, b) == Open(l.sends, b) + Amount(HandedBy(ev), b)
  {
    if ev.Send? {
      BeginConserves(l, ev.data, b);
    } else if ev.Pass? {
      if ev.send < |l.sends| {
        var out, rest := PassOutgoing(l, ev.send, ev.taken);
        ShortenConserves(l.sends, ev.send, out, rest, b);
      }
    } else {
      OtherSendsNothing(cfg, l, ev);
    }
  }

  /**
   * In every run, with any number of callers at once, every byte handed over
   * is written in a DATA frame, given up or still to be sent, exactly once:
   * for each byte value, and in all, the numbers agree.
   */
  lemma {:induction false} DataConserved(cfg: Config, l: Link, evs: seq<Event>, b: Option<byte>)
    requires Parked(l) && EventsOk(evs)
    ensures var e := Run(cfg, l, evs);
            Amount(Outgoing(e.actions), b) + Open(e.link.sends, b) == Open(l.sends, b) + Amount(Handed(evs), b)
  {
    if evs != [] {
      var n := |evs| - 1;
      DataConserved(cfg, l, evs[..n], b);
      var e := Run(cfg, l, evs[..n]);
      var f := Step(cfg, e.link, evs[n]);
      StepConservesData(cfg, e.link, evs[n], b);
      OutgoingSplit(e.actions, f.actions);
      AmountSplit(Outgoing(e.actions), Outgoing(f.actions), b);
      AmountSplit(Handed(evs[..n]), HandedBy(evs[n]), b);
    }
  }

  /**
   * In every run, with any number of callers at once, no byte handed over is
   * missing from the DATA frames and the open sends if and only if every call
   * found an active session and every pass succeeded.
   */
  lemma NothingIsLostIff(cfg: Config, l: Link, evs: seq<Event>)
    requires Parked(l) && EventsOk(evs) && AllFilled(l.sends)
    ensures var e := Run(cfg, l, evs);
            |DataIn(Written(e.actions))| + Open(e.link.sends, None) == Open(l.sends, None) + |Handed(evs)|
            <==> AllComplete(cfg, l, evs)
  {
    var t := Run(cfg, l, evs).actions;
    LossIff(cfg, l, evs);
    DataConserved(cfg, l, evs, None);
    WrittenIsOutgoingIff(t);
    AmountIsLength(Outgoing(t));
    AmountIsLength(Handed(evs));
  }

  // ----- one caller at a time

  /** The calls of a run come one after the other, as those of a single client's receive task do. */
  ghost predicate OneAtATime(cfg: Config, l: Link, evs: seq<Event>)
    requires Parked(l) && EventsOk(evs)
  {
    evs == []
    || var n := |evs| - 1;
       OneAtATime(cfg, l, evs[..n]) && Alone(Run(cfg, l, evs[..n]).link, evs[n])
  }

  /** At most one send is open, and none when the next one is called. */
  predicate Alone(l: Link, ev: Event)
  {
    |l.sends| <= 1 && (ev.Send? ==> l.sends == [])
  }

  lemma ConcatOne(data: Bytes)
    ensures Concat(Left(data)) == data
  {
    if data != [] {
      assert Concat([data]) == data + Concat([]);
    }
  }

  lemma AlonePassInOrder(l: Link, taken: bool)
    requires |l.sends| == 1
    ensures var e := SendPass(l, 0, taken); Outgoing(e.actions) + Concat(e.link.sends) == Concat(l.sends)
  {
    var out, rest := PassOutgoing(l, 0, taken);
    ConcatOne(rest);
    assert Concat(l.sends) == l.sends[0] + Concat([]);
    assert Shorten(l.sends, 0, rest) == Left(rest);
  }

  lemma StepInOrder(cfg: Config, l: Link, ev: Event)
    requires |l.rx| <= RX_BUF_SIZE && Alone(l, ev)
    ensures var e := Step(cfg, l, ev); Outgoing(e.actions) + Concat(e.link.sends) == Concat(l.sends) + HandedBy(ev)
  {
    if ev.Send? {
      OneAction(Dropped(ev.data));
      ConcatOne(ev.data);
    } else if ev.Pass? {
      if l.sends != [] && ev.send == 0 {
        AlonePassInOrder(l, ev.taken);
      }
    } else {
      OtherSendsNothing(cfg, l, ev);
    }
  }

  lemma {:induction false} DataInOrder(cfg: Config, l: Link, evs: seq<Event>)
    requires Parked(l) && EventsOk(evs) && OneAtATime(cfg, l, evs)
    ensures var e := Run(cfg, l, evs); Outgoing(e.actions) + Concat(e.link.sends) == Concat(l.sends) + Handed(evs)
  {
    if evs == [] {
      assert [] + Concat(l.sends) == Concat(l.sends) + [];
    } else {
      var n := |evs| - 1;
      DataInOrder(cfg, l, evs[..n]);
      var e := Run(cfg, l, evs[..n]);
      var f := Step(cfg, e.link, evs[n]);
      StepInOrder(cfg, e.link, evs[n]);
      OutgoingSplit(e.actions, f.actions);
      Assoc(Outgoing(e.actions), Outgoing(f.actions), Concat(f.link.sends));
      Assoc(Outgoing(e.actions), Concat(e.link.sends), HandedBy(evs[n]));
      Assoc(Concat(l.sends), Handed(evs[..n]), HandedBy(evs[n]));
    }
  }

  /**
   * In every run with one caller at a time, whatever else is written in
   * between, the DATA frames written followed by what is still to be sent are,
   * in order, exactly what was handed over, if and only if every call found an
   * active session and every pass succeeded.
   */
  lemma DataIsForwardedIff(cfg: Config, l: Link, evs: seq<Event>)
    requires Parked(l) && EventsOk(evs) && AllFilled(l.sends) && OneAtATime(cfg, l, evs)
    ensures var e := Run(cfg, l, evs);
            DataIn(Written(e.actions)) + Concat(e.link.sends) == Concat(l.sends) + Handed(evs)
            <==> AllComplete(cfg, l, evs)
  {
    var e := Run(cfg, l, evs);
    LossIff(cfg, l, evs);
    DataInOrder(cfg, l, evs);
    WrittenIsOutgoingIff(e.actions);
    PiecesAddUp(DataIn(Written(e.actions)), Concat(e.link.sends), Outgoing(e.actions), Concat(e.link.sends));
  }

  lemma RunSnoc(cfg: Config, l: Link, evs: seq<Event>, ev: Event)
    requires Parked(l) && EventsOk(evs) && EventOk(ev)
    ensures EventsOk(evs + [ev])
    ensures var e := Run(cfg, l, evs); Run(cfg, l, evs + [ev]) == Then(e, Step(cfg, e.link, ev))
  {
    assert (evs + [ev])[..|evs|] == evs;
  }

  /** The bytes that a run puts on the UART. */
  ghost function OnTheLine(cfg: Config, l: Link, evs: seq<Event>): (r: Bytes)
    requires Parked(l) && EventsOk(evs) && AllFilled(l.sends)
  {
    LossIff(cfg, l, evs);
    Concat(Wire(Written(Run(cfg, l, evs).actions)))
  }

  /** No reset and no corrupted frame. */
  ghost predicate Calm(t: Trace)
  {
    NoReset(t) && forall i :: 0 <= i < |t| && t[i].Processed? ==> Intact(t[i].frame)
  }

  lemma {:induction false} CalmStaysActive(t: Trace)
    requires Calm(t)
    ensures StateAfter(RpcActive, t) == RpcActive
  {
    if t != [] {
      CalmStaysActive(t[..|t| - 1]);
    }
  }

  lemma CalmPrefix(a: Trace, b: Trace)
    requires Calm(a + b)
    ensures Calm(a)
  {
    assert forall i :: 0 <= i < |a| ==> (a + b)[i] == a[i];
  }

  /** The UART takes every frame of every send. */
  ghost predicate AllTaken(evs: seq<Event>)
  {
    forall i :: 0 <= i < |evs| && evs[i].Pass? ==> evs[i].taken
  }

  /** An active session without resets and corrupted frames forwards everything, if the UART takes it. */
  lemma {:induction false} CalmSessionForwards(cfg: Config, l: Link, evs: seq<Event>)
    requires Parked(l) && EventsOk(evs) && l.state == RpcActive
    requires AllTaken(evs) && Calm(Run(cfg, l, evs).actions)
    ensures AllComplete(cfg, l, evs)
  {
    if evs != [] {
      var n := |evs| - 1;
      var e := Run(cfg, l, evs[..n]);
      CalmPrefix(e.actions, Step(cfg, e.link, evs[n]).actions);
      CalmSessionForwards(cfg, l, evs[..n]);
      CalmStaysActive(e.actions);
      RunState(cfg, l, evs[..n]);
    }
  }

  // ----- an undisturbed call

  /** The passes of a call with nothing in between: `accepted` of them succeed, the next one fails. */
  function Passes(data: Bytes, accepted: nat): (evs: seq<Event>)
    ensures forall i :: 0 <= i < |evs| ==> EventOk(evs[i])
    decreases |data|
  {
    if data == [] then []
    else if accepted == 0 then [Pass(0, false)]
    else [Pass(0, true)] + Passes(data[ChunkSize(data)..], accepted - 1)
  }

  /** The first of several passes, and what the following ones do. */
  lemma FirstPass(data: Bytes, accepted: nat) returns (head: Bytes, tail: Bytes, evs: seq<Event>, rest: Trace)
    requires data != [] && accepted > 0
    ensures head == data[..ChunkSize(data)] && tail == data[ChunkSize(data)..]
    ensures data == head + tail && |tail| < |data|
    ensures evs == Passes(tail, accepted - 1) && Passes(data, accepted) == [Pass(0, true)] + evs
    ensures rest == SendActions(tail, accepted - 1) && SendActions(data, accepted) == [Transmitted(Data(head))] + rest
    ensures Fragments(data) == [Data(head)] + Fragments(tail)
  {
    var k := ChunkSize(data);
    head, tail := data[..k], data[k..];
    evs, rest := Passes(tail, accepted - 1), SendActions(tail, accepted - 1);
    FragmentsCons(data, head, tail);
  }

  lemma OnePass(l: Link, data: Bytes, taken: bool)
    requires l.sends == [data] && data != []
    ensures SendPass(l, 0, taken).link == l.(sends := if taken then Left(data[ChunkSize(data)..]) else [])
    ensures SendPass(l, 0, taken).actions
         == [if taken then Transmitted(Data(data[..ChunkSize(data)])) else Dropped(data)]
  {
    assert [data][..0] == [] && [data][1..] == [];
  }

  lemma PassRun(cfg: Config, l: Link, evs: seq<Event>, e: Effect, data: Bytes, taken: bool) returns (e': Effect)
    requires Parked(l) && EventsOk(evs) && data != [] && e == Run(cfg, l, evs) && e.link.sends == [data]
    ensures EventsOk(evs + [Pass(0, taken)]) && e' == Run(cfg, l, evs + [Pass(0, taken)])
    ensures e'.link == e.link.(sends := if taken then Left(data[ChunkSize(data)..]) else [])
    ensures e'.actions == e.actions + [if taken then Transmitted(Data(data[..ChunkSize(data)])) else Dropped(data)]
  {
    OnePass(e.link, data, taken);
    RunSnoc(cfg, l, evs, Pass(0, taken));
    e' := Run(cfg, l, evs + [Pass(0, taken)]);
  }

  lemma {:induction false} PassesFollow(cfg: Config, l: Link, evs: seq<Event>, e: Effect, data: Bytes, accepted: nat,
                                        all: seq<Event>) returns (e': Effect)
    requires Parked(l) && EventsOk(evs) && e == Run(cfg, l, evs) && e.link.sends == Left(data)
    requires all == evs + Passes(data, accepted) && EventsOk(all)
    ensures e' == Run(cfg, l, all)
    ensures e'.link == e.link.(sends := []) && e'.actions == e.actions + SendActions(data, accepted)
    decreases |data|
  {
    if data == [] {
      assert all == evs && e.actions + [] == e.actions;
      e' := e;
    } else if accepted == 0 {
      e' := PassRun(cfg, l, evs, e, data, false);
    } else {
      var head, tail, more, rest := FirstPass(data, accepted);
      var e1 := PassRun(cfg, l, evs, e, data, true);
      Assoc(evs, [Pass(0, true)], more);
      e' := PassesFollow(cfg, l, evs + [Pass(0, true)], e1, tail, accepted - 1, all);
      Assoc(e.actions, [Transmitted(Data(head))], rest);
    }
  }

  lemma CallEntered(cfg: Config, l: Link, data: Bytes) returns (e: Effect)
    requires Parked(l) && l.state == RpcActive && l.sends == []
    ensures EventsOk([Send(data)]) && e == Run(cfg, l, [Send(data)])
    ensures e.link == l.(sends := Left(data)) && e.actions == []
  {
    var evs := [Send(data)];
    assert evs[..0] == [];
    e := Run(cfg, l, evs);
    assert l.sends + Left(data) == Left(data);
  }

  /** On an active session a whole call is the run of its passes with nothing in between. */
  lemma SendIsItsPasses(cfg: Config, l: Link, data: Bytes, accepted: nat)
    requires Parked(l) && l.state == RpcActive && l.sends == []
    ensures EventsOk([Send(data)] + Passes(data, accepted))
    ensures Run(cfg, l, [Send(data)] + Passes(data, accepted)) == SendRpc(l, data, accepted)
  {
    var e := CallEntered(cfg, l, data);
    var e' := PassesFollow(cfg, l, [Send(data)], e, data, accepted, [Send(data)] + Passes(data, accepted));
    assert [] + SendActions(data, accepted) == SendActions(data, accepted);
  }

  /** The first `n` of a list, or all if there are fewer. */
  function Front<T>(xs: seq<T>, n: nat): (r: seq<T>) { if n < |xs| then xs[..n] else xs }

  lemma FrontCons<T>(x: T, xs: seq<T>, n: nat)
    requires n > 0
    ensures Front([x] + xs, n) == [x] + Front(xs, n - 1)
  {
  }

  /** A call writes the first fragments of its data, as many as the UART takes. */
  lemma {:induction false} CallWritesFragments(data: Bytes, accepted: nat)
    ensures Written(SendActions(data, accepted)) == Front(Fragments(data), accepted)
    decreases |data|
  {
    if data != [] && accepted == 0 {
      OneAction(Dropped(data));
    } else if data != [] {
      var head, tail, more, rest := FirstPass(data, accepted);
      CallWritesFragments(tail, accepted - 1);
      OneAction(Transmitted(Data(head)));
      WrittenSplit([Transmitted(Data(head))], rest);
      FrontCons(Data(head), Fragments(tail), accepted);
    }
  }

  /** It gives up exactly what they do not carry, which is nothing if the UART takes them all. */
  lemma {:induction false} CallAccountsForData(data: Bytes, accepted: nat)
    ensures Outgoing(SendActions(data, accepted)) == data
    ensures NoLoss(SendActions(data, accepted)) <==> accepted >= |Fragments(data)|
    decreases |data|
  {
    if data != [] && accepted == 0 {
      OneAction(Dropped(data));
    } else if data != [] {
      var head, tail, more, rest := FirstPass(data, accepted);
      CallAccountsForData(tail, accepted - 1);
      OneAction(Transmitted(Data(head)));
      OutgoingSplit([Transmitted(Data(head))], rest);
      NoLossSplit([Transmitted(Data(head))], rest);
    }
  }

  // ----- callers at the same time

  /** The events of two callers at once: one pass of the first, all of the second, the rest of the first. */
  function Overlapping(first: Bytes, second: Bytes): (evs: seq<Event>)
  {
    [Send(first)] + [Pass(0, true)] + [Send(second)] + [Pass(1, true)] + [Pass(0, true)]
  }

  lemma BothOpen(cfg: Config, l: Link, first: Bytes, second: Bytes) returns (evs: seq<Event>, e: Effect)
    requires Parked(l) && l.state == RpcActive && l.sends == [] && |first| > MAX_PAYLOAD && second != []
    ensures evs == [Send(first)] + [Pass(0, true)] + [Send(second)] && EventsOk(evs) && e == Run(cfg, l, evs)
    ensures e.link == l.(sends := [first[MAX_PAYLOAD..], second])
    ensures e.actions == [Transmitted(Data(first[..MAX_PAYLOAD]))]
  {
    e := CallEntered(cfg, l, first);
    e := PassRun(cfg, l, [Send(first)], e, first, true);
    RunSnoc(cfg, l, [Send(first)] + [Pass(0, true)], Send(second));
    evs := [Send(first)] + [Pass(0, true)] + [Send(second)];
    e := Run(cfg, l, evs);
  }

  /** Two callers at once: between the two frames of one send, a whole other send is written. */
  lemma OverlappingSendsMix(cfg: Config, l: Link, first: Bytes, second: Bytes)
    requires Parked(l) && l.state == RpcActive && l.sends == []
    requires MAX_PAYLOAD < |first| <= 2 * MAX_PAYLOAD && 0 < |second| <= MAX_PAYLOAD
    ensures Run(cfg, l, Overlapping(first, second))
         == Effect(l, [Transmitted(Data(first[..MAX_PAYLOAD])), Transmitted(Data(second)),
                       Transmitted(Data(first[MAX_PAYLOAD..]))])
  {
    var rest := first[MAX_PAYLOAD..];
    var evs, e := BothOpen(cfg, l, first, second);
    RunSnoc(cfg, l, evs, Pass(1, true));
    RunSnoc(cfg, l, evs + [Pass(1, true)], Pass(0, true));
    assert Shorten([rest, second], 1, []) == [rest];
    assert second[..|second|] == second && rest[..|rest|] == rest;
  }
}
