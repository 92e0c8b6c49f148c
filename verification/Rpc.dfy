/**
 * The nanopb-delimited RPC layer: length-prefixed messages on top of the exact
 * reads, and the fragmented file write. The protobuf serializer is a pair of
 * functions about which only their round trip is assumed.
 */
module Rpc {
  import opened Streams
  import opened Transport
  import Varint

  const MAX_VARINT_BYTES := 5
  const MAX_MESSAGE := 1_000_000

  /** One message on the wire: its length, then its bytes. */
  function Delimit(payload: Bytes): (r: Bytes) { Varint.Encode(|payload|) + payload }

  // ----- reading

  /** Reads a varint of at most `left` bytes; bytes consumed by a failed read are gone. */
  function TakeVarint(h: Host, left: nat): (r: (Option<nat>, Host))
    decreases left
  {
    if left == 0 then (None, h)
    else
      var (o, h1) := ReadExact(h, 1);
      if !o.Got? || |o.bytes| != 1 then (None, h1)
      else if o.bytes[0] < 128 then (Some(o.bytes[0]), h1)
      else
        var (v, h2) := TakeVarint(h1, left - 1);
        (if v.None? then None else Some(o.bytes[0] % 128 + 128 * v.value), h2)
  }

  /** Reads one delimited message; None on a timeout, a failure or a bad length. */
  function TakePayload(h: Host): (r: (Option<Bytes>, Host))
  {
    var (n, h1) := TakeVarint(h, MAX_VARINT_BYTES);
    if n.None? || n.value == 0 || n.value > MAX_MESSAGE then (None, h1)
    else
      var (o, h2) := ReadExact(h1, n.value);
      (if o.Got? then Some(o.bytes) else None, h2)
  }

  /** Repeated receives until `count` messages have been asked for. */
  function TakePayloads(h: Host, count: nat): (r: (seq<Option<Bytes>>, Host))
    decreases count
  {
    if count == 0 then ([], h)
    else
      var (p, h1) := TakePayload(h);
      var (ps, h2) := TakePayloads(h1, count - 1);
      ([p] + ps, h2)
  }

  /** `v` shifted left by `k` groups of seven bits. */
  function Shift(v: nat, k: nat): (r: nat)
  {
    if k == 0 then v else 128 * Shift(v, k - 1)
  }

  lemma {:induction false} ShiftSplits(g: nat, v: nat, k: nat)
    ensures Shift(g + 128 * v, k) == Shift(g, k) + Shift(v, k + 1)
  {
    if k > 0 {
      ShiftSplits(g, v, k - 1);
    }
  }

  /** The value of the first `k` groups, followed by what the remaining ones give. */
  function Continue(value: nat, k: nat, rest: (Option<nat>, Host)): (r: (Option<nat>, Host))
  {
    (if rest.0.None? then None else Some(value + Shift(rest.0.value, k)), rest.1)
  }

  lemma ContinueGroup(value: nat, k: nat, b: byte, rest: (Option<nat>, Host))
    ensures Continue(value + Shift(b % 128, k), k + 1, rest)
         == Continue(value, k, (if rest.0.None? then None else Some(b % 128 + 128 * rest.0.value), rest.1))
  {
    if rest.0.Some? {
      ShiftSplits(b % 128, rest.0.value, k);
    }
  }

  /** Single-byte reads return one byte. */
  lemma ReadOne(h: Host)
    ensures var (o, h') := ReadExact(h, 1); o.Got? ==> |o.bytes| == 1
  {
    var used := ReadExactConserves(h, 1);
  }

  // ----- round trip of one varint and one message

  lemma {:induction false} TakeVarintReads(h: Host, n: nat, rest: Bytes, left: nat)
    requires Ready(h) == Varint.Encode(n) + rest && |Varint.Encode(n)| <= left
    ensures var (v, h') := TakeVarint(h, left); v == Some(n) && Ready(h') == rest
    decreases left
  {
    ReadExactReady(h, 1);
    var (o, h1) := ReadExact(h, 1);
    assert o.bytes == [Varint.Encode(n)[0]];
    if n >= 128 {
      assert Varint.Encode(n) == [n % 128 + 128] + Varint.Encode(n / 128);
      assert Ready(h1) == Varint.Encode(n / 128) + rest;
      TakeVarintReads(h1, n / 128, rest, left - 1);
      assert (n % 128 + 128) % 128 == n % 128;
    } else {
      assert Ready(h1) == rest;
    }
  }

  lemma {:induction false} TakeVarintRefuses(h: Host, n: nat, rest: Bytes, left: nat)
    requires Ready(h) == Varint.Encode(n) + rest && |Varint.Encode(n)| > left
    ensures TakeVarint(h, left).0 == None
    decreases left
  {
    if left > 0 {
      ReadExactReady(h, 1);
      var (o, h1) := ReadExact(h, 1);
      assert o.bytes == [Varint.Encode(n)[0]];
      assert Varint.Encode(n) == [n % 128 + 128] + Varint.Encode(n / 128);
      assert Ready(h1) == Varint.Encode(n / 128) + rest;
      TakeVarintRefuses(h1, n / 128, rest, left - 1);
    }
  }

  /** The varint reader gives back what the encoder wrote, and consumes just that, exactly below 2^35. */
  lemma VarintRoundTrip(h: Host, n: nat, rest: Bytes)
    requires Ready(h) == Varint.Encode(n) + rest
    ensures var (v, h') := TakeVarint(h, MAX_VARINT_BYTES);
            if n < 0x8_0000_0000 then v == Some(n) && Ready(h') == rest else v == None
  {
    Varint.EncodeLength(n, MAX_VARINT_BYTES);
    assert Varint.Pow128(5) == 0x8_0000_0000 by {
      assert Varint.Pow128(3) == 128 * 128 * 128 * Varint.Pow128(0);
    }
    if n < 0x8_0000_0000 {
      TakeVarintReads(h, n, rest, MAX_VARINT_BYTES);
    } else {
      TakeVarintRefuses(h, n, rest, MAX_VARINT_BYTES);
    }
  }

  predicate Carriable(payload: Bytes) { 1 <= |payload| <= 1_000_000 }

  lemma MessageRoundTrip(h: Host, payload: Bytes, rest: Bytes)
    requires Carriable(payload) && Ready(h) == Delimit(payload) + rest
    ensures var (p, h') := TakePayload(h); p == Some(payload) && Ready(h') == rest
  {
    var n := |payload|;
    Assoc(Varint.Encode(n), payload, rest);
    VarintRoundTrip(h, n, payload + rest);
    var (v, h1) := TakeVarint(h, MAX_VARINT_BYTES);
    ReadExactReady(h1, n);
    assert (payload + rest)[..n] == payload && (payload + rest)[n..] == rest;
  }

  function DelimitAll(payloads: seq<Bytes>): (r: Bytes)
  {
    if payloads == [] then [] else Delimit(payloads[0]) + DelimitAll(payloads[1..])
  }

  function Answers(payloads: seq<Bytes>): (r: seq<Option<Bytes>>)
  {
    if payloads == [] then [] else [Some(payloads[0])] + Answers(payloads[1..])
  }

  /** Any list of messages is returned in order, with nothing left over, however the stream was chunked. */
  lemma {:induction false} MessagesRoundTrip(h: Host, payloads: seq<Bytes>, rest: Bytes)
    requires forall i :: 0 <= i < |payloads| ==> Carriable(payloads[i])
    requires Ready(h) == DelimitAll(payloads) + rest
    ensures var (ps, h') := TakePayloads(h, |payloads|); ps == Answers(payloads) && Ready(h') == rest
    decreases |payloads|
  {
    if payloads == [] {
      assert Ready(h) == rest;
    } else {
      var tail := DelimitAll(payloads[1..]) + rest;
      Assoc(Delimit(payloads[0]), DelimitAll(payloads[1..]), rest);
      MessageRoundTrip(h, payloads[0], tail);
      MessagesRoundTrip(TakePayload(h).1, payloads[1..], rest);
    }
  }

  // ----- what a failed receive does to the stream

  lemma TakeShortPayload(h: Host, len: byte, h1: Host)
    requires 1 <= len < 128 && ReadExact(h, 1) == (Got([len]), h1)
    ensures var (o, h2) := ReadExact(h1, len); TakePayload(h) == (if o.Got? then Some(o.bytes) else None, h2)
  {
    assert TakeVarint(h, MAX_VARINT_BYTES) == (Some(len), h1);
  }

  /** A stale length prefix makes the next receive hand out a message that was never sent. */
  lemma TimeoutLosesFraming()
    ensures var sent := [1, 9];
            var h := Host([], [Arrived([2, 1]), Expired, Arrived([9])]);
            && Unread(h) == Delimit(sent)
            && TakePayloads(h, 2).0 == [None, Some([9])]
  {
    var p0, p1, p2 := Arrived([2, 1]), Expired, Arrived([9]);
    var h0, h1 := Host([], [p0, p1, p2]), Host([2, 1], [p1, p2]);
    var h2, h3 := Host([1], [p1, p2]), Host([1], [p2]);
    var h4, h5 := Host([], [p2]), Host([9], []);
    assert Unread(h0) == Delimit([1, 9]) by {
      assert h0.polls[1..] == [p1, p2] && [p1, p2][1..] == [p2] && [p2][1..] == [];
      assert Arrivals([p2]) == [9] + Arrivals([]);
      assert Arrivals([p1, p2]) == [] + Arrivals([p2]);
    }
    assert TakePayload(h0) == (None, h3) by {
      assert h0.polls[1..] == h1.polls && [] + [2, 1] == [2, 1];
      assert [2, 1][..1] == [2] && [2, 1][1..] == [1];
      assert ReadExact(h0, 1) == ReadExact(h1, 1) == (Got([2]), h2);
      assert h2.polls[1..] == h3.polls;
      TakeShortPayload(h0, 2, h2);
    }
    assert TakePayload(h3).0 == Some([9]) by {
      assert [1][..1] == [1] && [1][1..] == [];
      assert ReadExact(h3, 1) == (Got([1]), h4);
      assert h4.polls[1..] == h5.polls && [] + [9] == [9];
      assert ReadExact(h4, 1) == ReadExact(h5, 1);
      assert [9][..1] == [9];
      TakeShortPayload(h3, 1, h4);
    }
    assert TakePayloads(h0, 2).0 == [None] + ([Some([9])] + []);
  }

  /** What a read returns, followed by what is left, is what there was. */
  lemma ReadTakesFront(h: Host, n: int)
    ensures var (o, h') := ReadExact(h, n); BytesOf(o) + Unread(h') == Unread(h)
  {
    var used := ReadExactConserves(h, n);
    ArrivalsSplit(h.polls, used);
    var (o, h') := ReadExact(h, n);
    Assoc(BytesOf(o), h'.rx, Arrivals(h'.polls));
    Assoc(h.rx, Arrivals(h.polls[..used]), Arrivals(h'.polls));
  }

  lemma {:induction false} TakeVarintShrinks(h: Host, left: nat)
    ensures |Unread(TakeVarint(h, left).1)| <= |Unread(h)|
    decreases left
  {
    if left > 0 {
      ReadTakesFront(h, 1);
      TakeVarintShrinks(ReadExact(h, 1).1, left - 1);
    }
  }

  lemma {:induction false} NothingReadyKeeps(h: Host)
    requires Ready(h) == []
    ensures !ReadExact(h, 1).0.Got? && Unread(ReadExact(h, 1).1) == Unread(h)
    decreases |h.polls|
  {
    if h.polls != [] && h.polls[0].Arrived? {
      assert h.polls[0].chunk == [] && h.rx + h.polls[0].chunk == h.rx;
      NothingReadyKeeps(Host(h.rx, h.polls[1..]));
    }
  }

  /** The first length byte that arrives is consumed for good. */
  lemma ReadyByteIsTaken(h: Host)
    requires Ready(h) != []
    ensures |Unread(TakeVarint(h, MAX_VARINT_BYTES).1)| < |Unread(h)|
  {
    ReadExactReady(h, 1);
    ReadTakesFront(h, 1);
    TakeVarintShrinks(ReadExact(h, 1).1, MAX_VARINT_BYTES - 1);
  }

  /** A length is read whole, or the read stops inside it: it never goes beyond. */
  lemma {:induction false} TakeVarintStaysInside(h: Host, n: nat, rest: Bytes, left: nat)
    requires Unread(h) == Varint.Encode(n) + rest && |Varint.Encode(n)| <= left
    ensures var (v, h') := TakeVarint(h, left);
            if v.Some? then v.value == n && Unread(h') == rest else |Unread(h')| > |rest|
    decreases left
  {
    ReadTakesFront(h, 1);
    ReadOne(h);
    var (o, h1) := ReadExact(h, 1);
    if o.Got? {
      assert o.bytes[0] == (o.bytes + Unread(h1))[0] == Varint.Encode(n)[0];
      assert Unread(h1) == (o.bytes + Unread(h1))[1..] == Varint.Encode(n)[1..] + rest;
      if n >= 128 {
        assert Varint.Encode(n)[1..] == Varint.Encode(n / 128);
        TakeVarintStaysInside(h1, n / 128, rest, left - 1);
        assert (n % 128 + 128) % 128 == n % 128;
      }
    }
  }

  /** A receive that fails on a deliverable message leaves more than what follows the message. */
  lemma FailureStaysInside(h: Host, payload: Bytes, rest: Bytes)
    requires Carriable(payload) && Unread(h) == Delimit(payload) + rest && TakePayload(h).0 == None
    ensures |Unread(TakePayload(h).1)| > |rest|
  {
    var n := |payload|;
    Varint.EncodeLength(n, MAX_VARINT_BYTES);
    assert Varint.Pow128(5) > MAX_MESSAGE by {
      assert Varint.Pow128(3) == 128 * 128 * 128 * Varint.Pow128(0);
    }
    Assoc(Varint.Encode(n), payload, rest);
    TakeVarintStaysInside(h, n, payload + rest, MAX_VARINT_BYTES);
    ReadTakesFront(TakeVarint(h, MAX_VARINT_BYTES).1, n);
  }

  lemma {:induction false} LaterBoundariesAreShorter(payloads: seq<Bytes>, k: nat)
    requires k <= |payloads|
    ensures |DelimitAll(payloads[k..])| <= |DelimitAll(payloads)|
  {
    if k == 0 {
      assert payloads[0..] == payloads;
    } else {
      assert payloads[1..][k - 1..] == payloads[k..];
      LaterBoundariesAreShorter(payloads[1..], k - 1);
    }
  }

  /** The unread stream starts at one of the messages, or is at its end. */
  ghost predicate AtBoundary(h: Host, payloads: seq<Bytes>)
  {
    exists k :: 0 <= k <= |payloads| && Unread(h) == DelimitAll(payloads[k..])
  }

  lemma FailureIsInside(h: Host, payloads: seq<Bytes>)
    requires payloads != [] && Carriable(payloads[0]) && Unread(h) == DelimitAll(payloads)
    requires TakePayload(h).0 == None && Ready(h) != []
    ensures var left := |Unread(TakePayload(h).1)|; |DelimitAll(payloads[1..])| < left < |DelimitAll(payloads)|
  {
    FailureStaysInside(h, payloads[0], DelimitAll(payloads[1..]));
    ReadyByteIsTaken(h);
    var (v, h1) := TakeVarint(h, MAX_VARINT_BYTES);
    if v.Some? {
      ReadTakesFront(h1, v.value);
    }
  }

  lemma NotAtBoundary(h: Host, payloads: seq<Bytes>)
    requires payloads != [] && |DelimitAll(payloads[1..])| < |Unread(h)| < |DelimitAll(payloads)|
    ensures !AtBoundary(h, payloads)
  {
    forall k | 0 <= k <= |payloads|
      ensures Unread(h) != DelimitAll(payloads[k..])
    {
      if k == 0 {
        assert payloads[k..] == payloads;
      } else {
        LaterBoundariesAreShorter(payloads[1..], k - 1);
        assert payloads[1..][k - 1..] == payloads[k..];
      }
    }
  }

  /**
   * After a failed receive from a stream of deliverable messages, the next one
   * starts at a message boundary exactly if no byte at all came before the
   * deadline: otherwise it starts inside the length or the bytes of a message.
   */
  lemma FailureKeepsFramingIff(h: Host, payloads: seq<Bytes>)
    requires Unread(h) == DelimitAll(payloads) && forall i :: 0 <= i < |payloads| ==> Carriable(payloads[i])
    requires TakePayload(h).0 == None
    ensures AtBoundary(TakePayload(h).1, payloads) <==> Ready(h) == []
  {
    if Ready(h) == [] {
      NothingReadyKeeps(h);
      assert payloads[0..] == payloads;
    } else {
      ReadyByteIsTaken(h);
      FailureIsInside(h, payloads);
      NotAtBoundary(TakePayload(h).1, payloads);
    }
  }

  /**
   * A length of zero or above the limit is refused and nothing but the length
   * is consumed. So an empty message is skipped and the next one received,
   * while the bytes of a message that is too long are taken for messages.
   */
  lemma BadLengthIsSkipped(h: Host, payload: Bytes, rest: Bytes)
    requires (payload == [] || 1_000_000 < |payload| < 0x8_0000_0000) && Ready(h) == Delimit(payload) + rest
    ensures TakePayload(h).0 == None && Ready(TakePayload(h).1) == payload + rest
  {
    Assoc(Varint.Encode(|payload|), payload, rest);
    VarintRoundTrip(h, |payload|, payload + rest);
  }

  // ----- the client object

  datatype Codec<!M> = Codec(ser: M -> Bytes, parse: Bytes -> Option<M>)

  /** Parsing inverts serializing. */
  ghost predicate Faithful<M(!new)>(c: Codec<M>)
  {
    forall m :: c.parse(c.ser(m)) == Some(m)
  }

  function NextCommandId(id: nat): (r: nat) { (id + 1) % 0xFFFF_FFFF }

  /** The id after `k` more commands. */
  function LaterCommandId(id: nat, k: nat): (r: nat)
  {
    if k == 0 then id else NextCommandId(LaterCommandId(id, k - 1))
  }

  /** `k` further on, counting round. */
  function Advance(id: nat, k: nat): (r: nat)
    requires id < 0xFFFF_FFFF && k < 0xFFFF_FFFF
  {
    if id + k < 0xFFFF_FFFF then id + k else id + k - 0xFFFF_FFFF
  }

  lemma NextAdvances(id: nat, k: nat)
    requires id < 0xFFFF_FFFF && k + 1 < 0xFFFF_FFFF
    ensures NextCommandId(Advance(id, k)) == Advance(id, k + 1)
  {
    var x := Advance(id, k);
    if x + 1 == 0xFFFF_FFFF {
      assert NextCommandId(x) == 0;
    } else {
      assert NextCommandId(x) == x + 1;
    }
  }

  lemma {:induction false} LaterCommandIdIs(id: nat, k: nat)
    requires id < 0xFFFF_FFFF && k < 0xFFFF_FFFF
    ensures LaterCommandId(id, k) == Advance(id, k)
  {
    if k > 0 {
      LaterCommandIdIs(id, k - 1);
      NextAdvances(id, k - 1);
    }
  }

  /** Any 2^32 - 1 successive commands have different ids. */
  lemma CommandIdsDiffer(id: nat, j: nat, k: nat)
    requires id < 0xFFFF_FFFF && j < k < 0xFFFF_FFFF
    ensures LaterCommandId(id, j) != LaterCommandId(id, k)
  {
    LaterCommandIdIs(id, j);
    LaterCommandIdIs(id, k);
  }

  class ProtobufRpc {
    const transport: FlipperTransport
    var commandId: nat

    constructor (transport: FlipperTransport)
      ensures this.transport == transport && commandId == 0
    {
      this.transport := transport;
      commandId := 0;
    }

    method ReadVarint() returns (r: Option<nat>)
      modifies transport
      ensures (r, transport.Abs()) == TakeVarint(old(transport.Abs()), MAX_VARINT_BYTES)
    {
      var value: nat := 0;
      for k := 0 to MAX_VARINT_BYTES
        invariant TakeVarint(old(transport.Abs()), MAX_VARINT_BYTES)
               == Continue(value, k, TakeVarint(transport.Abs(), MAX_VARINT_BYTES - k))
      {
        ReadOne(transport.Abs());
        var o := transport.ReceiveExact(1);
        if !o.Got? {
          return None;
        }
        var b := o.bytes[0];
        value := value + Shift(b % 128, k);
        if b < 128 {
          return Some(value);
        }
        ContinueGroup(value - Shift(b % 128, k), k, b, TakeVarint(transport.Abs(), MAX_VARINT_BYTES - k - 1));
      }
      return None;
    }

    method ReceivePayload() returns (r: Option<Bytes>)
      modifies transport
      ensures (r, transport.Abs()) == TakePayload(old(transport.Abs()))
    {
      var n := ReadVarint();
      if n.None? || n.value <= 0 || n.value > MAX_MESSAGE {
        return None;
      }
      var o := transport.ReceiveExact(n.value);
      return if o.Got? then Some(o.bytes) else None;
    }
  }
}
