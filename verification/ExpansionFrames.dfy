/**
 * Frames of the Flipper expansion-module protocol: the checksum, the encoders
 * of every frame type, the size rule and the stream parser built from it.
 */
module ExpansionFrames {
  import opened Streams

  const HEARTBEAT: byte := 0x01
  const STATUS: byte := 0x02
  const BAUD_RATE: byte := 0x03
  const CONTROL: byte := 0x04
  const DATA: byte := 0x05

  const STATUS_OK: byte := 0x00
  const STATUS_ERROR_BAUD_RATE: byte := 0x02

  const START_RPC: byte := 0x00
  const STOP_RPC: byte := 0x01

  const MAX_PAYLOAD := 64

  // ----- checksum

  /** XOR of all bytes of `s`. */
  function Checksum(s: Bytes): (r: byte)
  {
    if s == [] then 0 else Xor(Checksum(s[..|s| - 1]), s[|s| - 1])
  }

  /** An odd number of bytes of `s` have bit `k` set. */
  predicate OddBits(s: Bytes, k: nat)
  {
    s != [] && (OddBits(s[..|s| - 1], k) != Bit(s[|s| - 1], k))
  }

  /** Bit by bit, the checksum is the parity of the bytes. */
  lemma {:induction false} ChecksumIsParity(s: Bytes, k: nat)
    requires k < 8
    ensures Bit(Checksum(s), k) <==> OddBits(s, k)
  {
    if s == [] {
      ZeroBits(k);
    } else {
      ChecksumIsParity(s[..|s| - 1], k);
      XorBit(Checksum(s[..|s| - 1]), s[|s| - 1], k);
    }
  }

  lemma {:induction false} ZeroBits(k: nat)
    ensures !Bit(0, k)
  {
    if k > 0 {
      ZeroBits(k - 1);
    }
  }

  lemma {:induction false} ChecksumJoins(s: Bytes, t: Bytes)
    ensures Checksum(s + t) == Xor(Checksum(s), Checksum(t))
  {
    if t == [] {
      assert s + t == s;
      XorLaws(Checksum(s), 0, 0);
    } else {
      var n := |t| - 1;
      assert (s + t)[..|s| + n] == s + t[..n];
      ChecksumJoins(s, t[..n]);
      XorLaws(Checksum(s), Checksum(t[..n]), t[n]);
    }
  }

  /** A frame is good exactly if the XOR of all its bytes, the checksum included, is zero. */
  lemma GoodFrameXorsToZero(frame: Bytes)
    requires frame != []
    ensures ChecksumOk(frame) <==> Checksum(frame) == 0
  {
    var c, last := Checksum(frame[..|frame| - 1]), frame[|frame| - 1];
    XorLaws(last, c, 0);
    XorCancel(c, last, last);
  }

  /** The checksum loop of the firmware: a bit of the result is set exactly if an odd number of bytes have it. */
  method CalcChecksum(data: Bytes) returns (checksum: byte)
    ensures checksum == Checksum(data)
    ensures forall k :: 0 <= k < 8 ==> (Bit(checksum, k) <==> OddBits(data, k))
  {
    checksum := 0;
    for i := 0 to |data|
      invariant checksum == Checksum(data[..i])
    {
      assert data[..i + 1][..i] == data[..i];
      checksum := Xor(checksum, data[i]);
    }
    assert data[..|data|] == data;
    forall k | 0 <= k < 8
      ensures Bit(checksum, k) <==> OddBits(data, k)
    {
      ChecksumIsParity(data, k);
    }
  }

  /** A frame body followed by its checksum: what goes on the wire. */
  function Seal(body: Bytes): (frame: Bytes)
  {
    body + [Checksum(body)]
  }

  predicate ChecksumOk(frame: Bytes)
    requires frame != []
  {
    Checksum(frame[..|frame| - 1]) == frame[|frame| - 1]
  }

  /** Changing one byte changes the checksum. */
  lemma {:induction false} ChecksumSeesOneByte(s: Bytes, i: nat, b: byte)
    requires i < |s| && b != s[i]
    ensures Checksum(s[i := b]) != Checksum(s)
  {
    var n := |s| - 1;
    var t := s[i := b];
    if i == n {
      assert t[..n] == s[..n];
      XorCancel(s[n], b, Checksum(s[..n]));
    } else {
      assert t[..n] == s[..n][i := b];
      ChecksumSeesOneByte(s[..n], i, b);
      XorCancel(Checksum(t[..n]), Checksum(s[..n]), s[n]);
    }
  }

  /** No frame with a good checksum is one byte away from another one: every one-byte corruption shows. */
  lemma CorruptionBreaksChecksum(frame: Bytes, i: nat, b: byte)
    requires i < |frame| && b != frame[i] && ChecksumOk(frame)
    ensures !ChecksumOk(frame[i := b])
  {
    var n := |frame| - 1;
    var g := frame[i := b];
    if i == n {
      assert g[..n] == frame[..n];
    } else {
      assert g[..n] == frame[..n][i := b];
      ChecksumSeesOneByte(frame[..n], i, b);
    }
  }

  // ----- encoders

  /** The frames the bridge sends, one constructor for each send function. */
  datatype Message =
    | Heartbeat
    | Status(code: byte)
    | BaudRate(baud: nat)
    | Control(command: byte)
    | Data(payload: Bytes)

  predicate Sendable(m: Message)
  {
    m.Data? ==> |m.payload| <= MAX_PAYLOAD
  }

  predicate AllSendable(messages: seq<Message>)
  {
    forall i :: 0 <= i < |messages| ==> Sendable(messages[i])
  }

  function Body(m: Message): (body: Bytes)
    requires Sendable(m)
  {
    match m
    case Heartbeat => [HEARTBEAT]
    case Status(code) => [STATUS, code]
    case BaudRate(baud) =>
      [BAUD_RATE, baud % 256, (baud / 0x100) % 256, (baud / 0x1_0000) % 256, (baud / 0x100_0000) % 256]
    case Control(command) => [CONTROL, command]
    case Data(payload) => [DATA, |payload|] + payload
  }

  function Encode(m: Message): (frame: Bytes)
    requires Sendable(m)
  {
    Seal(Body(m))
  }

  // ----- size rule

  datatype Size = Exactly(n: nat) | NeedMore | Invalid

  /** What the bytes received so far say about the size of the frame they start. */
  function FrameSize(s: Bytes): (r: Size)
    requires s != []
    ensures r.Exactly? ==> 2 <= r.n <= MAX_PAYLOAD + 3
    ensures r.NeedMore? ==> |s| == 1
  {
    if s[0] == HEARTBEAT then Exactly(2)
    else if s[0] == STATUS then Exactly(3)
    else if s[0] == BAUD_RATE then Exactly(6)
    else if s[0] == CONTROL then Exactly(3)
    else if s[0] == DATA then
      if |s| >= 2 then
        if s[1] > MAX_PAYLOAD then Invalid else Exactly(2 + s[1] + 1)
      else NeedMore
    else Invalid
  }

  /** A complete frame as far as its size goes; its checksum may still be wrong. */
  predicate Sized(frame: Bytes)
  {
    frame != [] && FrameSize(frame) == Exactly(|frame|)
  }

  /** A frame that process_frame accepts. */
  predicate Intact(frame: Bytes)
  {
    Sized(frame) && ChecksumOk(frame)
  }

  predicate AllIntact(frames: seq<Bytes>)
  {
    forall i :: 0 <= i < |frames| ==> Intact(frames[i])
  }

  lemma SealIntact(body: Bytes)
    requires body != [] && FrameSize(body) == Exactly(|body| + 1)
    ensures Intact(Seal(body))
  {
    var f := Seal(body);
    assert f[..|body|] == body;
  }

  /** Every frame the sender produces is one the receiver accepts. */
  lemma EncodeIntact(m: Message)
    requires Sendable(m)
    ensures Intact(Encode(m))
    ensures m.Data? <==> Encode(m)[0] == DATA
    ensures m.Data? ==> Payload(Encode(m)) == m.payload
  {
    SealIntact(Body(m));
  }

  /** The bytes a DATA frame carries. */
  function Payload(frame: Bytes): (r: Bytes)
    requires Sized(frame) && frame[0] == DATA
  {
    frame[2..2 + frame[1]]
  }

  /** The four bytes of a BAUD_RATE frame are the announced rate, least significant first. */
  lemma BaudRateRoundTrip(baud: nat)
    requires baud < 0x1_0000_0000
    ensures var f := Encode(BaudRate(baud));
            var b0: int, b1: int, b2: int, b3: int := f[1], f[2], f[3], f[4];
            b0 + 0x100 * (b1 + 0x100 * (b2 + 0x100 * b3)) == baud
  {
    var q := baud / 0x100;
    assert baud / 0x1_0000 == q / 0x100;
    assert baud / 0x100_0000 == q / 0x1_0000;
    assert q / 0x1_0000 == (q / 0x100) / 0x100;
  }

  /** The message an intact frame stands for: its type byte, then its argument bytes. */
  function Decode(frame: Bytes): (r: Option<Message>)
  {
    if |frame| == 2 && frame[0] == 1 then Some(Heartbeat)
    else if |frame| == 3 && frame[0] == 2 then Some(Status(frame[1]))
    else if |frame| == 6 && frame[0] == 3 then
      var b0: nat, b1: nat, b2: nat, b3: nat := frame[1], frame[2], frame[3], frame[4];
      Some(BaudRate(b0 + 0x100 * (b1 + 0x100 * (b2 + 0x100 * b3))))
    else if |frame| == 3 && frame[0] == 4 then Some(Control(frame[1]))
    else if |frame| >= 3 && frame[0] == 5 && frame[1] == |frame| - 3 then Some(Data(frame[2..|frame| - 1]))
    else None
  }

  predicate Encodable(m: Message) { Sendable(m) && (m.BaudRate? ==> m.baud < 0x1_0000_0000) }

  /** The wire determines the message. */
  lemma EncodeRoundTrip(m: Message)
    requires Encodable(m)
    ensures Decode(Encode(m)) == Some(m)
  {
    if m.BaudRate? {
      BaudRateRoundTrip(m.baud);
    } else if m.Data? {
      assert Encode(m)[2..|Encode(m)| - 1] == m.payload;
    }
  }

  /** The frames that the size rule admits are exactly the encoded messages, up to their checksums. */
  lemma SizedIffDecodes(frame: Bytes)
    ensures Sized(frame) <==> Decode(frame).Some? && Sendable(Decode(frame).value)
  {
  }

  lemma EncodeInjective(m: Message, m': Message)
    requires Encodable(m) && Encodable(m') && Encode(m) == Encode(m')
    ensures m == m'
  {
    EncodeRoundTrip(m);
    EncodeRoundTrip(m');
  }

  /** The bytes of the two commands: a session is started by 04 00 04 and stopped by 04 01 05. */
  lemma CommandBytes()
    ensures Encode(Control(START_RPC)) == [4, 0, 4] && Encode(Control(STOP_RPC)) == [4, 1, 5]
    ensures Encode(Heartbeat) == [1, 1] && Encode(Status(STATUS_OK)) == [2, 0, 2]
  {
    ShortChecksums(4, 0);
    ShortChecksums(2, 0);
    ShortChecksums(4, 1);
    ShortChecksums(1, 0);
    assert XorBits(4, 1, 8) == 5 by {
      assert XorBits(1, 0, 6) == 1 + 2 * XorBits(0, 0, 5);
      XorBitsZero(0, 5);
    }
  }

  lemma ShortChecksums(a: byte, b: byte)
    ensures Checksum([a]) == a && Checksum([a, b]) == Xor(a, b)
    ensures b == 0 ==> Checksum([a, b]) == a
  {
    assert [a][..0] == [] && [a, b][..1] == [a];
    XorLaws(a, 0, 0);
    XorLaws(0, a, 0);
  }

  // ----- the one-shot stream parser

  datatype Item = Skip(b: byte) | Frame(bytes: Bytes)

  datatype Parsed = Parsed(items: seq<Item>, rest: Bytes)

  function ItemBytes(item: Item): (r: Bytes)
  {
    match item
    case Skip(b) => [b]
    case Frame(f) => f
  }

  function ItemsBytes(items: seq<Item>): (r: Bytes)
  {
    if items == [] then [] else ItemBytes(items[0]) + ItemsBytes(items[1..])
  }

  /** Cuts a stream into frames and skipped bytes, keeping an incomplete frame back. */
  function Parse(s: Bytes): (p: Parsed)
    decreases |s|
  {
    if s == [] then Parsed([], [])
    else
      match FrameSize(s)
      case NeedMore => Parsed([], s)
      case Invalid => Prepend(Skip(s[0]), Parse(s[1..]))
      case Exactly(n) => if n <= |s| then Prepend(Frame(s[..n]), Parse(s[n..])) else Parsed([], s)
  }

  function Prepend(item: Item, p: Parsed): (r: Parsed)
  {
    Parsed([item] + p.items, p.rest)
  }

  lemma PrependBytes(item: Item, p: Parsed, s: Bytes, n: nat)
    requires n <= |s| && ItemBytes(item) == s[..n] && ItemsBytes(p.items) + p.rest == s[n..]
    ensures ItemsBytes(Prepend(item, p).items) + p.rest == s
  {
    assert ([item] + p.items)[1..] == p.items;
    assert s == s[..n] + s[n..];
  }

  /** Nothing is lost or reordered. */
  lemma {:induction false} ParseConserves(s: Bytes)
    ensures ItemsBytes(Parse(s).items) + Parse(s).rest == s
    decreases |s|
  {
    if s == [] {
    } else if FrameSize(s).Invalid? {
      ParseConserves(s[1..]);
      PrependBytes(Skip(s[0]), Parse(s[1..]), s, 1);
    } else if FrameSize(s).Exactly? && FrameSize(s).n <= |s| {
      var n := FrameSize(s).n;
      ParseConserves(s[n..]);
      PrependBytes(Frame(s[..n]), Parse(s[n..]), s, n);
    } else {
      assert ItemsBytes([]) + s == s;
    }
  }

  /** What is kept back is shorter than one maximal frame. */
  lemma {:induction false} ParseRestShort(s: Bytes)
    ensures |Parse(s).rest| <= 66
    decreases |s|
  {
    if s != [] {
      match FrameSize(s)
      case NeedMore =>
      case Invalid => ParseRestShort(s[1..]);
      case Exactly(n) => if n <= |s| { ParseRestShort(s[n..]); }
    }
  }

  /** Every frame that comes out of the parser has the size its own header announces. */
  lemma {:induction false} ParseSized(s: Bytes)
    ensures forall i :: 0 <= i < |Parse(s).items| && Parse(s).items[i].Frame? ==> Sized(Parse(s).items[i].bytes)
    decreases |s|
  {
    if s != [] {
      match FrameSize(s)
      case NeedMore =>
      case Invalid => ParseSized(s[1..]);
      case Exactly(n) =>
        if n <= |s| {
          assert FrameSize(s[..n]) == FrameSize(s);
          ParseSized(s[n..]);
        }
    }
  }

  /** What resuming gives: the items of both parts and the remainder of the second. */
  function Resumed(first: Parsed, b: Bytes): (r: Parsed)
  {
    var second := Parse(first.rest + b);
    Parsed(first.items + second.items, second.rest)
  }

  lemma ResumedPrepend(item: Item, first: Parsed, b: Bytes)
    ensures Resumed(Prepend(item, first), b) == Prepend(item, Resumed(first, b))
  {
    Assoc([item], first.items, Parse(first.rest + b).items);
  }

  lemma ParseUnfolds(s: Bytes, n: nat)
    requires s != [] && 0 < n <= |s|
    requires if FrameSize(s).Invalid? then n == 1 else FrameSize(s) == Exactly(n)
    ensures Parse(s) == Prepend(if FrameSize(s).Invalid? then Skip(s[0]) else Frame(s[..n]), Parse(s[n..]))
  {
  }

  /** A complete first item stays the first item when more follows. */
  lemma FirstItemStays(a: Bytes, b: Bytes, n: nat)
    requires a != [] && 0 < n <= |a|
    requires if FrameSize(a).Invalid? then n == 1 else FrameSize(a) == Exactly(n)
    ensures FrameSize(a + b) == FrameSize(a)
    ensures (a + b)[..n] == a[..n] && (a + b)[n..] == a[n..] + b && (a + b)[0] == a[0]
  {
  }

  /** Parsing can stop anywhere and resume on the remainder: the result depends on the stream alone. */
  lemma {:induction false} ParseResumes(a: Bytes, b: Bytes)
    ensures Parse(a + b) == Resumed(Parse(a), b)
    decreases |a|
  {
    if a == [] {
      assert a + b == b;
    } else {
      var size := FrameSize(a);
      var n := match size case Invalid => 1 case Exactly(n) => n case NeedMore => 0;
      if 0 < n <= |a| {
        ParseUnfolds(a, n);
        FirstItemStays(a, b, n);
        ParseUnfolds(a + b, n);
        ParseResumes(a[n..], b);
        ResumedPrepend(if size.Invalid? then Skip(a[0]) else Frame(a[..n]), Parse(a[n..]), b);
      }
    }
  }

  function FrameItems(frames: seq<Bytes>): (r: seq<Item>)
    ensures |r| == |frames|
  {
    seq(|frames|, i requires 0 <= i < |frames| => Frame(frames[i]))
  }

  /** A stream of complete frames is cut back into exactly those frames. */
  lemma {:induction false} ParseFrames(frames: seq<Bytes>)
    requires forall i :: 0 <= i < |frames| ==> Sized(frames[i])
    ensures Parse(Concat(frames)) == Parsed(FrameItems(frames), [])
  {
    if frames != [] {
      var s := Concat(frames);
      var n := |frames[0]|;
      assert FrameSize(s) == FrameSize(frames[0]);
      assert s[..n] == frames[0] && s[n..] == Concat(frames[1..]);
      ParseFrames(frames[1..]);
      assert FrameItems(frames) == [Frame(frames[0])] + FrameItems(frames[1..]);
    }
  }
}
