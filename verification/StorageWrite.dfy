/** Writing a file to the device as a stream of RPC fragments. */
module StorageWrite {
  import opened Streams
  import opened Transport
  import opened Rpc
  import Varint

  const CHUNK_SIZE := 1024
  const THROUGHPUT: real := 80_000.0

  /** One fragment of a write. */
  datatype WriteRequest = WriteRequest(commandId: nat, hasNext: bool, path: string, data: Bytes)

  /** The content in pieces of 1024 bytes; empty content is one empty piece. */
  function Chunks(content: Bytes): (r: seq<Bytes>)
    ensures r != []
  {
    if |content| <= CHUNK_SIZE then [content]
    else [content[..CHUNK_SIZE]] + Chunks(content[CHUNK_SIZE..])
  }

  lemma {:induction false} ChunksCover(content: Bytes)
    ensures Concat(Chunks(content)) == content
    ensures |Chunks(content)| == if content == [] then 1 else (|content| + 1023) / 1024
    ensures forall i :: 0 <= i < |Chunks(content)| ==> |Chunks(content)[i]| <= 1024
    decreases |content|
  {
    if |content| <= CHUNK_SIZE {
      assert Concat([content]) == content + Concat([]);
    } else {
      var tail := content[CHUNK_SIZE..];
      ChunksCover(tail);
      assert Chunks(content)[1..] == Chunks(tail);
      assert content == content[..CHUNK_SIZE] + tail;
    }
  }

  function Fragment(codec: Codec<WriteRequest>, id: nat, path: string, data: Bytes, hasNext: bool): (r: Bytes)
  {
    Delimit(codec.ser(WriteRequest(id, hasNext, path, data)))
  }

  /** The delimited fragments for the given pieces; all but the last announce a successor. */
  function FragmentsOf(codec: Codec<WriteRequest>, id: nat, path: string, chunks: seq<Bytes>): (r: seq<Bytes>)
    requires chunks != []
    ensures |r| == |chunks|
  {
    if |chunks| == 1 then [Fragment(codec, id, path, chunks[0], false)]
    else [Fragment(codec, id, path, chunks[0], true)] + FragmentsOf(codec, id, path, chunks[1..])
  }

  function WriteFrames(codec: Codec<WriteRequest>, id: nat, path: string, content: Bytes): (r: seq<Bytes>)
  {
    FragmentsOf(codec, id, path, Chunks(content))
  }

  // ----- the receiver

  /** One delimited message off the front of a stream, of whatever length. */
  function Unframe(s: Bytes): (r: Option<(Bytes, Bytes)>)
    ensures r.Some? ==> |r.value.1| < |s|
  {
    match Varint.Split(s)
    case None => None
    case Some((n, rest)) => if n <= |rest| then Some((rest[..n], rest[n..])) else None
  }

  lemma UnframeDelimited(payload: Bytes, rest: Bytes)
    ensures Unframe(Delimit(payload) + rest) == Some((payload, rest))
  {
    Assoc(Varint.Encode(|payload|), payload, rest);
    Varint.SplitEncoded(|payload|, payload + rest);
    assert (payload + rest)[..|payload|] == payload && (payload + rest)[|payload|..] == rest;
  }

  datatype Received = Received(id: nat, path: string, content: Bytes, rest: Bytes)

  /** A device that unframes the stream and collects fragments of one command until one has no successor. */
  function Reassemble(codec: Codec<WriteRequest>, s: Bytes): (r: Option<Received>)
    decreases |s|
  {
    if Unframe(s).None? then None
    else
      var (payload, rest) := Unframe(s).value;
      match codec.parse(payload)
      case None => None
      case Some(w) =>
        if w.hasNext then Join(w, Reassemble(codec, rest))
        else Some(Received(w.commandId, w.path, w.data, rest))
  }

  /** A fragment in front of what the fragments after it gave; they must belong to one write. */
  function Join(w: WriteRequest, more: Option<Received>): (r: Option<Received>)
  {
    if more.None? || more.value.id != w.commandId || more.value.path != w.path then None
    else Some(more.value.(content := w.data + more.value.content))
  }

  lemma ReassembleFirst(codec: Codec<WriteRequest>, w: WriteRequest, rest: Bytes)
    requires Faithful(codec)
    ensures Reassemble(codec, Delimit(codec.ser(w)) + rest)
         == if w.hasNext then Join(w, Reassemble(codec, rest))
            else Some(Received(w.commandId, w.path, w.data, rest))
  {
    UnframeDelimited(codec.ser(w), rest);
  }

  lemma {:induction false} FragmentsReassemble(
      codec: Codec<WriteRequest>, id: nat, path: string, chunks: seq<Bytes>, rest: Bytes)
    requires Faithful(codec) && chunks != []
    ensures Reassemble(codec, Concat(FragmentsOf(codec, id, path, chunks)) + rest)
         == Some(Received(id, path, Concat(chunks), rest))
    decreases |chunks|
  {
    var frames := FragmentsOf(codec, id, path, chunks);
    var w := WriteRequest(id, |chunks| > 1, path, chunks[0]);
    assert frames[0] == Delimit(codec.ser(w));
    Assoc(frames[0], Concat(frames[1..]), rest);
    ReassembleFirst(codec, w, Concat(frames[1..]) + rest);
    if |chunks| == 1 {
      assert Concat(frames[1..]) + rest == rest;
      assert Concat(chunks) == chunks[0] + Concat(chunks[1..]) == chunks[0];
    } else {
      assert frames[1..] == FragmentsOf(codec, id, path, chunks[1..]);
      FragmentsReassemble(codec, id, path, chunks[1..], rest);
    }
  }

  /**
   * A receiver that unframes the written stream and collects until has_next is
   * false gets back the command id, the path and the content, whatever
   * follows; the write takes as many fragments as 1024-byte pieces need, at
   * least one.
   */
  lemma WriteRoundTrip(codec: Codec<WriteRequest>, id: nat, path: string, content: Bytes, rest: Bytes)
    requires Faithful(codec)
    ensures Reassemble(codec, Concat(WriteFrames(codec, id, path, content)) + rest)
         == Some(Received(id, path, content, rest))
    ensures |WriteFrames(codec, id, path, content)|
         == if content == [] then 1 else (|content| + CHUNK_SIZE - 1) / CHUNK_SIZE
  {
    ChunksCover(content);
    FragmentsReassemble(codec, id, path, Chunks(content), rest);
  }

  // ----- the writer

  /** Seconds slept for pacing: after every fragment but the last. */
  function Pacing(frames: seq<Bytes>): (r: real)
  {
    if |frames| <= 1 then 0.0 else |frames[0]| as real / THROUGHPUT + Pacing(frames[1..])
  }

  /** The result of the final receive: whether the device answered OK. */
  function Acked(parseStatus: Bytes -> Option<int>, h: Host): (r: bool)
  {
    var (p, _) := TakePayload(h);
    p.Some? && parseStatus(p.value) == Some(0)
  }

  /**
   * The device's answer decides: if a complete message comes in time, whether
   * its status is OK; if nothing comes in time, the write has failed.
   */
  lemma AckedIff(parseStatus: Bytes -> Option<int>, h: Host, reply: Bytes, rest: Bytes)
    ensures Carriable(reply) && Ready(h) == Delimit(reply) + rest ==>
              (Acked(parseStatus, h) <==> parseStatus(reply) == Some(0))
    ensures Ready(h) == [] ==> !Acked(parseStatus, h)
  {
    if Carriable(reply) && Ready(h) == Delimit(reply) + rest {
      MessageRoundTrip(h, reply, rest);
    }
    if Ready(h) == [] {
      ReadExactReady(h, 1);
    }
  }

  /** Less than the whole answer in time is no answer. */
  lemma CutAnswerFails(parseStatus: Bytes -> Option<int>, h: Host, reply: Bytes, missing: Bytes)
    requires Carriable(reply) && missing != [] && Ready(h) + missing == Delimit(reply)
    ensures !Acked(parseStatus, h)
  {
    var e := Varint.Encode(|reply|);
    assert Ready(h) == (Ready(h) + missing)[..|Ready(h)|] == Delimit(reply)[..|Ready(h)|];
    if |Ready(h)| < |e| {
      assert Ready(h) == e[..|Ready(h)|];
      TakeCutVarint(h, |reply|, e[|Ready(h)|..], MAX_VARINT_BYTES);
    } else {
      var part := Ready(h)[|e|..];
      assert Ready(h)[..|e|] == e;
      assert Ready(h) == e + part;
      VarintRoundTrip(h, |reply|, part);
      ReadExactReady(TakeVarint(h, MAX_VARINT_BYTES).1, |reply|);
    }
  }

  lemma {:induction false} TakeCutVarint(h: Host, n: nat, missing: Bytes, left: nat)
    requires missing != [] && Ready(h) + missing == Varint.Encode(n)
    ensures TakeVarint(h, left).0 == None
    decreases left
  {
    if left > 0 {
      ReadExactReady(h, 1);
      var (o, h1) := ReadExact(h, 1);
      if o.Got? {
        assert n >= 128;
        assert Varint.Encode(n) == [n % 128 + 128] + Varint.Encode(n / 128);
        assert o.bytes[0] == Ready(h)[0] == (Ready(h) + missing)[0];
        assert Ready(h1) + missing == (Ready(h) + missing)[1..] == Varint.Encode(n / 128);
        TakeCutVarint(h1, n / 128, missing, left - 1);
      }
    }
  }

  /**
   * The fragment loop. The link takes `accepted` sends and then raises; the
   * device's answer is read after the last fragment and only then.
   */
  method Write(rpc: ProtobufRpc, codec: Codec<WriteRequest>, parseStatus: Bytes -> Option<int>,
               path: string, content: Bytes, accepted: nat)
    returns (ok: bool, sent: seq<Bytes>, slept: real)
    modifies rpc`commandId, rpc.transport
    ensures rpc.commandId == NextCommandId(old(rpc.commandId))
    ensures var frames := WriteFrames(codec, rpc.commandId, path, content);
            if accepted < |frames|
            then !ok && sent == frames[..accepted] && rpc.transport.Abs() == old(rpc.transport.Abs())
            else
              && sent == frames
              && slept == Pacing(frames)
              && ok == Acked(parseStatus, old(rpc.transport.Abs()))
              && rpc.transport.Abs() == TakePayload(old(rpc.transport.Abs())).1
  {
    rpc.commandId := NextCommandId(rpc.commandId);
    var id := rpc.commandId;
    var chunks := Chunks(content);
    ghost var frames := FragmentsOf(codec, id, path, chunks);
    sent, slept := [], 0.0;
    var index := 0;
    while true
      invariant index < |chunks| == |frames| && index <= accepted
      invariant sent == frames[..index]
      invariant frames[index..] == FragmentsOf(codec, id, path, chunks[index..])
      invariant slept + Pacing(frames[index..]) == Pacing(frames)
      invariant id == rpc.commandId && rpc.transport.Abs() == old(rpc.transport.Abs())
      decreases |chunks| - index
    {
      var isLast := index == |chunks| - 1;
      var framed := Fragment(codec, id, path, chunks[index], !isLast);
      assert chunks[index..][0] == chunks[index] && frames[index..][0] == frames[index];
      if index == accepted {
        return false, sent, slept;
      }
      sent := sent + [framed];
      assert frames[..index + 1] == frames[..index] + [frames[index]];
      if isLast {
        var p := rpc.ReceivePayload();
        ok := p.Some? && parseStatus(p.value) == Some(0);
        return ok, sent, slept;
      }
      slept := slept + |framed| as real / THROUGHPUT;
      assert frames[index..][1..] == frames[index + 1..] && chunks[index..][1..] == chunks[index + 1..];
      index := index + 1;
    }
  }

  // ----- pacing against the write's own deadline

  /** The time a write may take altogether. */
  function Budget(length: nat): (r: real)
  {
    if length as real / 40_000.0 > 15.0 then length as real / 40_000.0 else 15.0
  }

  /** The bytes of all fragments but the last are spread over time at 80,000 bytes per second. */
  lemma {:induction false} PacingIsThroughput(frames: seq<Bytes>)
    requires frames != []
    ensures Pacing(frames) * 80_000.0 == |Concat(frames[..|frames| - 1])| as real
  {
    if |frames| > 1 {
      PacingIsThroughput(frames[1..]);
      var front := frames[..|frames| - 1];
      assert front[1..] == frames[1..][..|frames| - 2];
      assert Concat(front) == frames[0] + Concat(front[1..]);
    }
  }

  lemma {:induction false} PacingBound(frames: seq<Bytes>)
    requires frames != []
    requires forall i :: 0 <= i < |frames| - 1 ==> |frames[i]| <= 2 * CHUNK_SIZE
    ensures Pacing(frames) <= (|frames| - 1) as real * 0.0256
  {
    if |frames| > 1 {
      PacingBound(frames[1..]);
      assert |frames[0]| as real / THROUGHPUT <= 0.0256;
    }
  }

  /**
   * The sleeps between fragments alone never use up the deadline of the write,
   * as long as a non-final fragment adds at most 1024 bytes to its 1024 of data.
   */
  lemma PacingWithinBudget(codec: Codec<WriteRequest>, id: nat, path: string, content: Bytes)
    requires var frames := WriteFrames(codec, id, path, content);
             forall i :: 0 <= i < |frames| - 1 ==> |frames[i]| <= |Chunks(content)[i]| + 1024
    ensures Pacing(WriteFrames(codec, id, path, content)) <= Budget(|content|)
    ensures Budget(|content|) >= 15.0 && Budget(|content|) * 40_000.0 >= |content| as real
    ensures Budget(|content|) == 15.0 || Budget(|content|) * 40_000.0 == |content| as real
  {
    var frames := WriteFrames(codec, id, path, content);
    ChunksCover(content);
    forall i | 0 <= i < |frames| - 1
      ensures |frames[i]| <= 2 * CHUNK_SIZE
    {
      assert |Chunks(content)[i]| <= CHUNK_SIZE;
    }
    PacingBound(frames);
    var k := |frames| - 1;
    assert k * CHUNK_SIZE <= |content|;
    assert k as real * 0.0256 == (k * CHUNK_SIZE) as real / 40_000.0;
  }
}
