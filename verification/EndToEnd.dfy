/**
 * Both directions of the bridge, from one end to the other: RPC messages from
 * the device through UART frames, arbitrary reads, the TCP hop and the host's
 * receive loop; and a host write through TCP packets and UART fragments.
 */
module EndToEnd {
  import opened Streams
  import opened ExpansionFrames
  import opened ExpansionLink
  import opened ExpansionStream
  import opened ExpansionSession
  import opened ExpansionSender
  import T = Transport
  import Rpc
  import W = StorageWrite

  /**
   * Device to host. The device delimits any messages of 1 to 1,000,000 bytes
   * and cuts the resulting stream anywhere into DATA frames, with other intact
   * frames in between; an active link reads their bytes in any pieces, with
   * any sends and timer checks in between; TCP cuts what the link delivers
   * anywhere. Then repeated receives return exactly those messages, in order,
   * with nothing left over, and each DATA frame was acknowledged once.
   */
  lemma MessagesReachHost(cfg: Config, l: Link, evs: seq<Event>, frames: seq<Bytes>,
                          payloads: seq<Bytes>, polls: seq<T.Poll>)
    requires forall i :: 0 <= i < |payloads| ==> Rpc.Carriable(payloads[i])
    requires AllIntact(frames) && Payloads(frames) == Rpc.DelimitAll(payloads)
    requires Parked(l) && l.rx == [] && l.state == RpcActive && cfg.callback
    requires EventsOk(evs) && Received(evs) == Concat(frames) && NoReset(Run(cfg, l, evs).actions)
    requires T.Prompt(polls) == Done(Run(cfg, l, evs).actions).delivered
    ensures var (got, host) := Rpc.TakePayloads(T.Host([], polls), |payloads|);
            got == Rpc.Answers(payloads) && T.Ready(host) == []
    ensures var e := Run(cfg, l, evs);
            e.link.state == RpcActive && e.link.rx == [] && Done(e.actions).acks == AcksFor(frames)
  {
    SessionCarries(cfg, l, evs, frames);
    HostReceives(payloads, polls);
  }

  /** A host whose link brings exactly the delimited messages gets exactly these messages. */
  lemma HostReceives(payloads: seq<Bytes>, polls: seq<T.Poll>)
    requires forall i :: 0 <= i < |payloads| ==> Rpc.Carriable(payloads[i])
    requires T.Prompt(polls) == Rpc.DelimitAll(payloads)
    ensures var (got, host) := Rpc.TakePayloads(T.Host([], polls), |payloads|);
            got == Rpc.Answers(payloads) && T.Ready(host) == []
  {
    assert T.Ready(T.Host([], polls)) == Rpc.DelimitAll(payloads) + [];
    Rpc.MessagesRoundTrip(T.Host([], polls), payloads, []);
  }

  /** The same from an idle or failed link on: connect, handshake and messages in one stream of bytes. */
  lemma MessagesReachHostFromConnect(cfg: Config, l: Link, at: nat, evs: seq<Event>, code: byte,
                                     frames: seq<Bytes>, payloads: seq<Bytes>, polls: seq<T.Poll>)
    requires forall i :: 0 <= i < |payloads| ==> Rpc.Carriable(payloads[i])
    requires AllIntact(frames) && Payloads(frames) == Rpc.DelimitAll(payloads)
    requires (l.state == Disconnected || l.state == Error) && cfg.callback && EventsOk(evs)
    requires code == STATUS_OK || code == STATUS_ERROR_BAUD_RATE
    requires Parked(ConnectLink(l, at).link) && Received(evs) == Concat(Handshake(code) + frames)
    requires NoReset(Run(cfg, ConnectLink(l, at).link, evs).actions)
    requires T.Prompt(polls) == Done(Run(cfg, ConnectLink(l, at).link, evs).actions).delivered
    ensures var (got, host) := Rpc.TakePayloads(T.Host([], polls), |payloads|);
            got == Rpc.Answers(payloads) && T.Ready(host) == []
    ensures var e := Run(cfg, ConnectLink(l, at).link, evs);
            e.link.state == RpcActive && e.link.rx == [] && Done(e.actions).acks == AcksFor(frames)
  {
    ConnectToDelivery(cfg, l, at, evs, code, frames);
    HostReceives(payloads, polls);
  }

  // ----- host to device

  /**
   * Host to device. The stream of a write's fragments, cut into TCP packets
   * anywhere, is handed to the bridge packet by packet, and every packet finds
   * an active session and all its passes succeed. Whatever else the bridge does
   * in between, also between two passes, with its acknowledgements and
   * heartbeats among the DATA frames, a peer that follows the same protocol and
   * reads the line in any pieces delivers bytes that reassemble to the command
   * id, path and content.
   */
  lemma WriteReachesDevice(codec: Rpc.Codec<W.WriteRequest>, id: nat, path: string, content: Bytes,
                           cfg: Config, l: Link, evs: seq<Event>,
                           peerCfg: Config, peer: Link, peerEvs: seq<Event>)
    requires Rpc.Faithful(codec)
    requires Parked(l) && EventsOk(evs) && l.sends == [] && Run(cfg, l, evs).link.sends == []
    requires OneAtATime(cfg, l, evs) && AllComplete(cfg, l, evs)
    requires Handed(evs) == Concat(W.WriteFrames(codec, id, path, content))
    requires Parked(peer) && peer.rx == [] && peer.state == RpcActive && peerCfg.callback && EventsOk(peerEvs)
    requires Received(peerEvs) == OnTheLine(cfg, l, evs) && NoReset(Run(peerCfg, peer, peerEvs).actions)
    ensures W.Reassemble(codec, Done(Run(peerCfg, peer, peerEvs).actions).delivered)
         == Some(W.Received(id, path, content, []))
  {
    var written := ForwardedWire(cfg, l, evs);
    SessionCarries(peerCfg, peer, peerEvs, Wire(written));
    W.WriteRoundTrip(codec, id, path, content, []);
    assert Handed(evs) + [] == Handed(evs);
  }

  lemma ForwardedWire(cfg: Config, l: Link, evs: seq<Event>) returns (written: seq<Message>)
    requires Parked(l) && EventsOk(evs) && l.sends == [] && Run(cfg, l, evs).link.sends == []
    requires OneAtATime(cfg, l, evs) && AllComplete(cfg, l, evs)
    ensures written == Written(Run(cfg, l, evs).actions) && AllSendable(written)
    ensures OnTheLine(cfg, l, evs) == Concat(Wire(written))
    ensures AllIntact(Wire(written)) && Payloads(Wire(written)) == Handed(evs)
  {
    written := Written(Run(cfg, l, evs).actions);
    LossIff(cfg, l, evs);
    DataIsForwardedIff(cfg, l, evs);
    assert DataIn(written) + [] == DataIn(written) && [] + Handed(evs) == Handed(evs);
    WireCarries(written);
  }
}
