/**
 * The exact-read buffer of the host's transport. What the link does is a
 * script of polls, one for each turn of the receive loop: bytes arrive, the
 * deadline has passed, or the transport raises. A script that has run out
 * counts as a deadline.
 */
module Transport {
  import opened Streams

  datatype Poll = Arrived(chunk: Bytes) | Expired | Broken

  datatype Outcome = Got(bytes: Bytes) | Nothing | Raised

  /** The buffered bytes and what is still to come. */
  datatype Host = Host(rx: Bytes, polls: seq<Poll>)

  /** All bytes the polls bring. */
  function Arrivals(polls: seq<Poll>): (r: Bytes)
  {
    if polls == [] then []
    else (if polls[0].Arrived? then polls[0].chunk else []) + Arrivals(polls[1..])
  }

  /** The bytes that come before the first deadline or failure. */
  function Prompt(polls: seq<Poll>): (r: Bytes)
  {
    if polls == [] || !polls[0].Arrived? then [] else polls[0].chunk + Prompt(polls[1..])
  }

  /** What a reader can get without a timeout. */
  function Ready(h: Host): (r: Bytes) { h.rx + Prompt(h.polls) }

  /** Every byte not yet handed to a reader. */
  function Unread(h: Host): (r: Bytes) { h.rx + Arrivals(h.polls) }

  function ReadExact(h: Host, n: int): (r: (Outcome, Host))
    decreases |h.polls|
  {
    if n <= 0 then (Nothing, h)
    else if |h.rx| >= n then (Got(h.rx[..n]), Host(h.rx[n..], h.polls))
    else if h.polls == [] then (Nothing, h)
    else
      match h.polls[0]
      case Arrived(chunk) => ReadExact(Host(h.rx + chunk, h.polls[1..]), n)
      case Expired => (Nothing, Host(h.rx, h.polls[1..]))
      case Broken => (Raised, Host(h.rx, h.polls[1..]))
  }

  function BytesOf(o: Outcome): (r: Bytes) { if o.Got? then o.bytes else [] }

  class FlipperTransport {
    var rxBuffer: Bytes
    var polls: seq<Poll>

    function Abs(): (h: Host)
      reads this
    {
      Host(rxBuffer, polls)
    }

    constructor (script: seq<Poll>)
      ensures Abs() == Host([], script)
    {
      rxBuffer, polls := [], script;
    }

    method ReceiveExact(n: int) returns (out: Outcome)
      modifies this
      ensures (out, Abs()) == ReadExact(old(Abs()), n)
    {
      if n <= 0 {
        return Nothing;
      }
      while |rxBuffer| < n
        invariant ReadExact(Abs(), n) == ReadExact(old(Abs()), n)
        decreases |polls|
      {
        if polls == [] {
          return Nothing;
        }
        var poll := polls[0];
        polls := polls[1..];
        match poll {
          case Expired => return Nothing;
          case Broken => return Raised;
          case Arrived(chunk) => rxBuffer := rxBuffer + chunk;
        }
      }
      out := Got(rxBuffer[..n]);
      rxBuffer := rxBuffer[n..];
    }
  }

  /**
   * A call returns exactly `n` bytes or nothing; what it returns followed by
   * the buffer is what the buffer held followed by what arrived during the
   * call; and a call that returns nothing takes nothing out.
   */
  lemma {:induction false} ReadExactConserves(h: Host, n: int) returns (used: nat)
    ensures var (o, h') := ReadExact(h, n);
            && used <= |h.polls| && h'.polls == h.polls[used..]
            && BytesOf(o) + h'.rx == h.rx + Arrivals(h.polls[..used])
            && (o.Got? ==> |o.bytes| == n)
    decreases |h.polls|
  {
    used := 0;
    if n <= 0 || |h.rx| >= n || h.polls == [] {
      assert h.polls[0..] == h.polls;
    } else {
      assert h.polls[..1][1..] == [];
      used := 1;
      if h.polls[0].Arrived? {
        var next := Host(h.rx + h.polls[0].chunk, h.polls[1..]);
        var u := ReadExactConserves(next, n);
        used := u + 1;
        assert h.polls[..used][1..] == next.polls[..u];
        Assoc(h.rx, h.polls[0].chunk, Arrivals(next.polls[..u]));
      }
    }
  }

  /** A sequence of calls: the results in order and the host that remains. */
  function ReadEach(h: Host, ns: seq<int>): (r: (seq<Outcome>, Host))
    decreases |ns|
  {
    if ns == [] then ([], h)
    else
      var (o, h1) := ReadExact(h, ns[0]);
      var (os, h2) := ReadEach(h1, ns[1..]);
      ([o] + os, h2)
  }

  function Returned(os: seq<Outcome>): (r: Bytes)
  {
    if os == [] then [] else BytesOf(os[0]) + Returned(os[1..])
  }

  lemma {:induction false} ArrivalsSplit(polls: seq<Poll>, k: nat)
    requires k <= |polls|
    ensures Arrivals(polls) == Arrivals(polls[..k]) + Arrivals(polls[k..])
  {
    if k == 0 {
      assert polls[0..] == polls;
    } else {
      ArrivalsSplit(polls[1..], k - 1);
      assert polls[..k][1..] == polls[1..][..k - 1];
      assert polls[1..][k - 1..] == polls[k..];
    }
  }

  /**
   * Over any sequence of exact reads, with any chunking, timeouts and
   * failures, the bytes returned followed by the buffer are the bytes received.
   */
  lemma {:induction false} ReadEachConserves(h: Host, ns: seq<int>) returns (used: nat)
    ensures var (os, h') := ReadEach(h, ns);
            && used <= |h.polls| && h'.polls == h.polls[used..]
            && Returned(os) + h'.rx == h.rx + Arrivals(h.polls[..used])
    decreases |ns|
  {
    used := 0;
    if ns == [] {
      assert h.polls[0..] == h.polls;
    } else {
      var u := ReadExactConserves(h, ns[0]);
      var (o, h1) := ReadExact(h, ns[0]);
      var v := ReadEachConserves(h1, ns[1..]);
      var (os, h2) := ReadEach(h1, ns[1..]);
      used := u + v;
      ChainReads(h, h1, h2, o, os, u, v);
    }
  }

  lemma ChainReads(h: Host, h1: Host, h2: Host, o: Outcome, os: seq<Outcome>, u: nat, v: nat)
    requires u <= |h.polls| && h1.polls == h.polls[u..] && BytesOf(o) + h1.rx == h.rx + Arrivals(h.polls[..u])
    requires v <= |h1.polls| && h2.polls == h1.polls[v..] && Returned(os) + h2.rx == h1.rx + Arrivals(h1.polls[..v])
    ensures u + v <= |h.polls| && h2.polls == h.polls[u + v..]
    ensures Returned([o] + os) + h2.rx == h.rx + Arrivals(h.polls[..u + v])
  {
    assert ([o] + os)[1..] == os;
    ArrivalsSplit(h.polls[..u + v], u);
    assert h.polls[..u + v][..u] == h.polls[..u];
    assert h.polls[..u + v][u..] == h1.polls[..v];
    calc {
      (BytesOf(o) + Returned(os)) + h2.rx;
      { Assoc(BytesOf(o), Returned(os), h2.rx); }
      BytesOf(o) + (h1.rx + Arrivals(h1.polls[..v]));
      { Assoc(BytesOf(o), h1.rx, Arrivals(h1.polls[..v])); }
      (h.rx + Arrivals(h.polls[..u])) + Arrivals(h1.polls[..v]);
      { Assoc(h.rx, Arrivals(h.polls[..u]), Arrivals(h1.polls[..v])); }
      h.rx + Arrivals(h.polls[..u + v]);
    }
  }

  /** What ends the wait for more bytes is an exception of the link. */
  ghost predicate BrokenFirst(polls: seq<Poll>)
  {
    exists k :: 0 <= k < |polls| && polls[k].Broken? && forall j :: 0 <= j < k ==> polls[j].Arrived?
  }

  lemma BrokenLater(polls: seq<Poll>)
    requires polls != [] && polls[0].Arrived?
    ensures BrokenFirst(polls) <==> BrokenFirst(polls[1..])
  {
    if BrokenFirst(polls) {
      var k :| 0 <= k < |polls| && polls[k].Broken? && forall j :: 0 <= j < k ==> polls[j].Arrived?;
      assert polls[1..][k - 1].Broken? && forall j :: 0 <= j < k - 1 ==> polls[1..][j] == polls[j + 1];
    }
    if BrokenFirst(polls[1..]) {
      var k :| 0 <= k < |polls[1..]| && polls[1..][k].Broken? && forall j :: 0 <= j < k ==> polls[1..][j].Arrived?;
      assert polls[k + 1].Broken? && forall j :: 0 < j < k + 1 ==> polls[j] == polls[1..][j - 1];
    }
  }

  /**
   * A read succeeds exactly when enough bytes come before the deadline,
   * whatever their chunking; otherwise it raises if an exception of the link
   * ends the wait, and returns nothing if the deadline does.
   */
  lemma {:induction false} ReadExactReady(h: Host, n: nat)
    requires n > 0
    ensures var (o, h') := ReadExact(h, n);
            if n <= |Ready(h)|
            then o == Got(Ready(h)[..n]) && Ready(h') == Ready(h)[n..]
            else o == if BrokenFirst(h.polls) then Raised else Nothing
    decreases |h.polls|
  {
    if |h.rx| >= n {
      assert Ready(h)[..n] == h.rx[..n];
      assert Ready(h)[n..] == h.rx[n..] + Prompt(h.polls);
    } else if h.polls != [] && h.polls[0].Arrived? {
      var next := Host(h.rx + h.polls[0].chunk, h.polls[1..]);
      Assoc(h.rx, h.polls[0].chunk, Prompt(h.polls[1..]));
      ReadExactReady(next, n);
      BrokenLater(h.polls);
    } else if h.polls != [] {
      assert h.polls[0].Broken? ==> BrokenFirst(h.polls);
    }
  }
}
