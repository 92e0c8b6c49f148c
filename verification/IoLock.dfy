/**
 * The one I/O lock that the RPC methods and the CLI share. The first part
 * describes which link operations and lock acquisitions each public operation
 * makes; the second runs any number of operations under any scheduler.
 */
module IoLock {
  import opened Streams

  datatype Instr = Acquire | Release | Send | Receive

  /** Code as far as the link and the lock are concerned; every piece may also stop early by an exception. */
  datatype Code =
    | Io(instr: Instr)
    | Then(first: Code, second: Code)
    | Either(left: Code, right: Code)
    | Repeat(body: Code)
    | Nop
    | WithLock(body: Code)

  /** `e` is a possible execution of `c`, complete or cut short. */
  ghost predicate Runs(c: Code, e: seq<Instr>)
    decreases c, |e|
  {
    match c
    case Nop => e == []
    case Io(i) => e == [] || e == [i]
    case Then(a, b) => exists k :: 0 <= k <= |e| && Runs(a, e[..k]) && Runs(b, e[k..])
    case Either(a, b) => Runs(a, e) || Runs(b, e)
    case Repeat(b) => e == [] || exists k :: 0 < k <= |e| && Runs(b, e[..k]) && Runs(c, e[k..])
    case WithLock(b) =>
      || e == []
      || (|e| >= 2 && e[0] == Acquire && e[|e| - 1] == Release && Runs(b, e[1..|e| - 1]))
  }

  // ----- the client's procedures

  function Drain(): (c: Code) { Repeat(Io(Receive)) }

  function ReceiveMainMessage(): (c: Code) { Repeat(Io(Receive)) }

  function ProbeRpc(): (c: Code) { Then(Drain(), Then(Io(Send), Then(ReceiveMainMessage(), Drain()))) }

  function StartSessionAttempt(): (c: Code) { Then(Io(Send), Then(Io(Send), Then(Drain(), ProbeRpc()))) }

  function EnsureRpcSessionStarted(): (c: Code)
  {
    Either(Nop, Then(Either(Nop, ProbeRpc()), Repeat(StartSessionAttempt())))
  }

  function SendRpcMessage(): (c: Code)
  {
    Then(EnsureRpcSessionStarted(), Then(Io(Send), ReceiveMainMessage()))
  }

  function GetPropertyInternal(): (c: Code) { SendRpcMessage() }

  function GetDeviceInfoInternal(): (c: Code)
  {
    Then(SendRpcMessage(), Then(Repeat(ReceiveMainMessage()), Repeat(GetPropertyInternal())))
  }

  function StorageListFrames(): (c: Code) { Then(SendRpcMessage(), Repeat(ReceiveMainMessage())) }

  function StorageWriteInternal(): (c: Code)
  {
    Then(EnsureRpcSessionStarted(), Then(Repeat(Io(Send)), ReceiveMainMessage()))
  }

  function SendStopSession(): (c: Code) { Then(Io(Send), Drain()) }

  function CliExchange(): (c: Code)
  {
    Then(SendStopSession(), Then(Io(Send), Then(Drain(), Then(Io(Send), Drain()))))
  }

  /** The public operations; Exchange stands for every single request and response. */
  datatype Op =
    | Exchange | GetDeviceInfo | GetProperty | StorageList | StorageWrite
    | EnterRpc | EnterCli | CliExec | WithoutRpcLayer

  function CodeOf(op: Op): (c: Code)
  {
    match op
    case Exchange => WithLock(SendRpcMessage())
    case GetDeviceInfo => WithLock(GetDeviceInfoInternal())
    case GetProperty => WithLock(GetPropertyInternal())
    case StorageList => WithLock(StorageListFrames())
    case StorageWrite => WithLock(StorageWriteInternal())
    case EnterRpc => WithLock(EnsureRpcSessionStarted())
    case EnterCli => WithLock(SendStopSession())
    case CliExec => WithLock(CliExchange())
    case WithoutRpcLayer => Nop
  }

  // ----- lock discipline

  predicate LockFree(c: Code)
  {
    match c
    case Nop => true
    case Io(i) => i == Send || i == Receive
    case Then(a, b) => LockFree(a) && LockFree(b)
    case Either(a, b) => LockFree(a) && LockFree(b)
    case Repeat(b) => LockFree(b)
    case WithLock(_) => false
  }

  ghost predicate OnlyIo(e: seq<Instr>)
  {
    forall i :: 0 <= i < |e| ==> e[i] == Send || e[i] == Receive
  }

  /** The lock is taken once, everything on the link happens under it, and it is given back once. */
  ghost predicate Disciplined(e: seq<Instr>)
  {
    || e == []
    || (|e| >= 2 && e[0] == Acquire && e[|e| - 1] == Release && OnlyIo(e[1..|e| - 1]))
  }

  lemma OnlyIoJoin(e: seq<Instr>, k: nat)
    requires k <= |e| && OnlyIo(e[..k]) && OnlyIo(e[k..])
    ensures OnlyIo(e)
  {
    assert e == e[..k] + e[k..];
  }

  lemma {:induction false} LockFreeRuns(c: Code, e: seq<Instr>)
    requires LockFree(c) && Runs(c, e)
    ensures OnlyIo(e)
    decreases c, |e|
  {
    match c
    case Nop =>
    case Io(i) =>
    case WithLock(b) =>
    case Either(a, b) =>
      if Runs(a, e) {
        LockFreeRuns(a, e);
      } else {
        LockFreeRuns(b, e);
      }
    case Then(a, b) =>
      var k :| 0 <= k <= |e| && Runs(a, e[..k]) && Runs(b, e[k..]);
      LockFreeRuns(a, e[..k]);
      LockFreeRuns(b, e[k..]);
      OnlyIoJoin(e, k);
    case Repeat(b) =>
      if e != [] {
        var k :| 0 < k <= |e| && Runs(b, e[..k]) && Runs(c, e[k..]);
        LockFreeRuns(b, e[..k]);
        LockFreeRuns(c, e[k..]);
        OnlyIoJoin(e, k);
      }
  }

  /**
   * No public operation ever tries to take the lock while it holds it, and
   * none touches the link without it, however its loops, branches and
   * exceptions play out.
   */
  lemma OperationsDisciplined(op: Op, e: seq<Instr>)
    requires Runs(CodeOf(op), e)
    ensures Disciplined(e)
  {
    if e != [] && CodeOf(op).WithLock? {
      assert LockFree(CodeOf(op).body);
      LockFreeRuns(CodeOf(op).body, e[1..|e| - 1]);
    }
  }

  /** One complete execution: every loop once, the second of two branches. */
  function Sample(c: Code): (e: seq<Instr>)
  {
    match c
    case Nop => []
    case Io(i) => [i]
    case Then(a, b) => Sample(a) + Sample(b)
    case Either(a, b) => Sample(b)
    case Repeat(b) => Sample(b)
    case WithLock(b) => [Acquire] + Sample(b) + [Release]
  }

  lemma {:induction false} SampleRuns(c: Code)
    ensures Runs(c, Sample(c))
  {
    match c
    case Nop =>
    case Io(i) =>
    case Then(a, b) =>
      SampleRuns(a);
      SampleRuns(b);
      var e, k := Sample(c), |Sample(a)|;
      assert e[..k] == Sample(a) && e[k..] == Sample(b);
    case Either(a, b) => SampleRuns(b);
    case Repeat(b) =>
      SampleRuns(b);
      var e := Sample(b);
      if e != [] {
        assert e[..|e|] == e && e[|e|..] == [];
        assert Runs(c, e[|e|..]);
      }
    case WithLock(b) =>
      SampleRuns(b);
      assert Sample(c)[1..|Sample(c)| - 1] == Sample(b);
  }

  /** The discipline is not that of operations that do nothing: each can send to the device and receive from it. */
  lemma OperationsReachDevice(op: Op)
    requires op != WithoutRpcLayer
    ensures exists e :: Runs(CodeOf(op), e) && Send in e && Receive in e
  {
    SampleRuns(CodeOf(op));
    assert Send in Sample(Io(Send)) && Receive in Sample(Repeat(Io(Receive)));
    assert Send in Sample(SendRpcMessage()) && Receive in Sample(ReceiveMainMessage());
  }

  // ----- interleaving

  type Program = seq<Instr>

  datatype Mark = Mark(op: nat, instr: Instr)

  /** Program counters, the lock's holder, the link's trace, and the order in which the lock was taken. */
  datatype World = World(pcs: seq<nat>, holder: Option<nat>, trace: seq<Mark>, order: seq<nat>)

  function Start(progs: seq<Program>): (w: World)
  {
    World(seq(|progs|, _ => 0), None, [], [])
  }

  /** Operation `i` is scheduled: it makes one step, or waits for the lock, or is done. */
  function Step(progs: seq<Program>, w: World, i: nat): (w': World)
    requires |w.pcs| == |progs|
    ensures |w'.pcs| == |progs|
  {
    if i >= |progs| || w.pcs[i] >= |progs[i]| then w
    else
      var next := w.(pcs := w.pcs[i := w.pcs[i] + 1]);
      match progs[i][w.pcs[i]]
      case Acquire => if w.holder.None? then next.(holder := Some(i), order := w.order + [i]) else w
      case Release => next.(holder := None)
      case io => next.(trace := w.trace + [Mark(i, io)])
  }

  function Run(progs: seq<Program>, schedule: seq<nat>): (w: World)
    ensures |w.pcs| == |progs|
  {
    if schedule == [] then Start(progs)
    else Step(progs, Run(progs, schedule[..|schedule| - 1]), schedule[|schedule| - 1])
  }

  function Tag(i: nat, e: seq<Instr>): (r: seq<Mark>)
    ensures |r| == |e|
  {
    seq(|e|, k requires 0 <= k < |e| => Mark(i, e[k]))
  }

  /** What operation `i` has done on the link when its program counter is `pc`. */
  function Block(progs: seq<Program>, i: nat, pc: nat): (r: seq<Mark>)
    requires i < |progs|
  {
    if pc == 0 || pc > |progs[i]| || |progs[i]| < 2 then []
    else Tag(i, progs[i][1..if pc == |progs[i]| then pc - 1 else pc])
  }

  /** One block for each operation, in the order in which they took the lock. */
  function Blocks(progs: seq<Program>, pcs: seq<nat>, order: seq<nat>): (r: seq<Mark>)
    requires |pcs| == |progs| && forall k :: 0 <= k < |order| ==> order[k] < |progs|
  {
    if order == [] then []
    else
      var n := |order| - 1;
      assert order[n] < |progs|;
      Blocks(progs, pcs, order[..n]) + Block(progs, order[n], pcs[order[n]])
  }

  ghost predicate AllDisciplined(progs: seq<Program>)
  {
    forall i :: 0 <= i < |progs| ==> Disciplined(progs[i])
  }

  /** Taking the lock is remembered, and only the holder is in the middle of its program. */
  ghost predicate Ordered(progs: seq<Program>, w: World)
  {
    && |w.pcs| == |progs|
    && (forall i :: 0 <= i < |progs| ==> w.pcs[i] <= |progs[i]|)
    && (forall k :: 0 <= k < |w.order| ==> w.order[k] < |progs| && w.pcs[w.order[k]] > 0)
    && (forall j, k :: 0 <= j < k < |w.order| ==> w.order[j] != w.order[k])
    && (forall i :: 0 <= i < |progs| && w.pcs[i] != 0 && w.pcs[i] != |progs[i]| ==> w.holder == Some(i))
    && (w.holder.Some? ==>
          && w.order != [] && w.holder.value == w.order[|w.order| - 1]
          && 0 < w.pcs[w.holder.value] < |progs[w.holder.value]|)
  }

  ghost predicate Inv(progs: seq<Program>, w: World)
  {
    Ordered(progs, w) && w.trace == Blocks(progs, w.pcs, w.order)
  }

  lemma {:induction false} BlocksFrame(progs: seq<Program>, pcs: seq<nat>, order: seq<nat>, i: nat, pc: nat)
    requires |pcs| == |progs| && i < |progs|
    requires forall k :: 0 <= k < |order| ==> order[k] < |progs| && order[k] != i
    ensures Blocks(progs, pcs[i := pc], order) == Blocks(progs, pcs, order)
  {
    if order != [] {
      BlocksFrame(progs, pcs, order[..|order| - 1], i, pc);
    }
  }

  lemma BlockGrows(progs: seq<Program>, i: nat, pc: nat)
    requires i < |progs| && Disciplined(progs[i]) && 0 < pc < |progs[i]|
    ensures if pc == |progs[i]| - 1
            then progs[i][pc] == Release && Block(progs, i, pc + 1) == Block(progs, i, pc)
            else
              && (progs[i][pc] == Send || progs[i][pc] == Receive)
              && Block(progs, i, pc + 1) == Block(progs, i, pc) + [Mark(i, progs[i][pc])]
  {
    var p := progs[i];
    if pc < |p| - 1 {
      assert p[1..|p| - 1][pc - 1] == p[pc];
      assert p[1..pc + 1] == p[1..pc] + [p[pc]];
    }
  }

  /** The lock's holder moves: its block, which is the last one, grows by what it does. */
  lemma HolderSteps(progs: seq<Program>, w: World, i: nat)
    requires AllDisciplined(progs) && Inv(progs, w) && w.holder == Some(i)
    ensures Inv(progs, Step(progs, w, i))
  {
    assert Disciplined(progs[i]);
    HolderOrdered(progs, w, i);
    HolderBlocks(progs, w, i);
  }

  lemma HolderOrdered(progs: seq<Program>, w: World, i: nat)
    requires Ordered(progs, w) && w.holder == Some(i) && Disciplined(progs[i])
    ensures Ordered(progs, Step(progs, w, i))
  {
    BlockGrows(progs, i, w.pcs[i]);
  }

  /** If the last operation's block grows by `more`, so does the whole. */
  lemma LastBlockGrows(progs: seq<Program>, pcs: seq<nat>, order: seq<nat>, i: nat, pc: nat, more: seq<Mark>)
    requires |pcs| == |progs| && i < |progs| && order != [] && order[|order| - 1] == i
    requires forall k :: 0 <= k < |order| - 1 ==> order[k] < |progs| && order[k] != i
    requires Block(progs, i, pc) == Block(progs, i, pcs[i]) + more
    ensures Blocks(progs, pcs[i := pc], order) == Blocks(progs, pcs, order) + more
  {
    var earlier := order[..|order| - 1];
    BlocksFrame(progs, pcs, earlier, i, pc);
    Assoc(Blocks(progs, pcs, earlier), Block(progs, i, pcs[i]), more);
  }

  lemma HolderBlocks(progs: seq<Program>, w: World, i: nat)
    requires Ordered(progs, w) && w.trace == Blocks(progs, w.pcs, w.order)
    requires w.holder == Some(i) && Disciplined(progs[i])
    ensures var w' := Step(progs, w, i);
            && w'.order == w.order && w'.pcs == w.pcs[i := w.pcs[i] + 1]
            && w'.trace == Blocks(progs, w'.pcs, w.order)
  {
    var more := HolderAdds(progs, w, i);
    LastBlockGrows(progs, w.pcs, w.order, i, w.pcs[i] + 1, more);
  }

  /** The step of the holder adds the same to its block and to the trace. */
  lemma HolderAdds(progs: seq<Program>, w: World, i: nat) returns (more: seq<Mark>)
    requires Ordered(progs, w) && w.holder == Some(i) && Disciplined(progs[i])
    ensures Block(progs, i, w.pcs[i] + 1) == Block(progs, i, w.pcs[i]) + more
    ensures var w' := Step(progs, w, i);
            w'.trace == w.trace + more && w'.order == w.order && w'.pcs == w.pcs[i := w.pcs[i] + 1]
  {
    var pc := w.pcs[i];
    more := if pc == |progs[i]| - 1 then [] else [Mark(i, progs[i][pc])];
    BlockGrows(progs, i, pc);
  }

  /** The lock is free and an operation takes it: a new, empty block is opened. */
  lemma TakerSteps(progs: seq<Program>, w: World, i: nat)
    requires AllDisciplined(progs) && Inv(progs, w) && w.holder.None?
    requires i < |progs| && w.pcs[i] == 0 && progs[i] != []
    ensures Inv(progs, Step(progs, w, i))
  {
    assert Disciplined(progs[i]);
    assert Step(progs, w, i) == World(w.pcs[i := 1], Some(i), w.trace, w.order + [i]);
    TakerOrdered(progs, w, i);
    TakerBlocks(progs, w, i);
  }

  lemma TakerOrdered(progs: seq<Program>, w: World, i: nat)
    requires Ordered(progs, w) && w.holder.None?
    requires i < |progs| && w.pcs[i] == 0 && |progs[i]| >= 2
    ensures Ordered(progs, World(w.pcs[i := 1], Some(i), w.trace, w.order + [i]))
  {
    assert forall k :: 0 <= k < |w.order| ==> w.order[k] != i;
  }

  lemma TakerBlocks(progs: seq<Program>, w: World, i: nat)
    requires Ordered(progs, w) && i < |progs| && w.pcs[i] == 0 && |progs[i]| >= 2
    ensures forall k :: 0 <= k < |w.order + [i]| ==> (w.order + [i])[k] < |progs|
    ensures Blocks(progs, w.pcs[i := 1], w.order + [i]) == Blocks(progs, w.pcs, w.order)
  {
    BlocksFrame(progs, w.pcs, w.order, i, 1);
    assert (w.order + [i])[..|w.order|] == w.order;
    assert Block(progs, i, 1) == [];
  }

  lemma StepKeepsInv(progs: seq<Program>, w: World, i: nat)
    requires AllDisciplined(progs) && Inv(progs, w)
    ensures Inv(progs, Step(progs, w, i))
  {
    if i < |progs| && w.pcs[i] < |progs[i]| {
      assert Disciplined(progs[i]);
      if w.pcs[i] != 0 {
        HolderSteps(progs, w, i);
      } else if w.holder.None? {
        TakerSteps(progs, w, i);
      }
    }
  }

  /**
   * Under any schedule of any number of operations, the link's trace is one
   * contiguous block per operation that got the lock, in that order: the whole
   * of its own link operations once it is done, and a prefix of them for the
   * one that holds the lock.
   */
  lemma {:induction false} ExchangesStayWhole(progs: seq<Program>, schedule: seq<nat>)
    requires AllDisciplined(progs)
    ensures Inv(progs, Run(progs, schedule))
  {
    if schedule != [] {
      ExchangesStayWhole(progs, schedule[..|schedule| - 1]);
      StepKeepsInv(progs, Run(progs, schedule[..|schedule| - 1]), schedule[|schedule| - 1]);
    }
  }

  /** The same for operations of the client. */
  lemma ClientExchangesStayWhole(ops: seq<Op>, progs: seq<Program>, schedule: seq<nat>)
    requires |progs| == |ops| && forall i :: 0 <= i < |ops| ==> Runs(CodeOf(ops[i]), progs[i])
    ensures var w := Run(progs, schedule);
            Ordered(progs, w) && w.trace == Blocks(progs, w.pcs, w.order)
  {
    forall i | 0 <= i < |progs|
      ensures Disciplined(progs[i])
    {
      OperationsDisciplined(ops[i], progs[i]);
    }
    ExchangesStayWhole(progs, schedule);
  }

  lemma {:induction false} BlocksOps(progs: seq<Program>, pcs: seq<nat>, order: seq<nat>, x: nat)
    requires |pcs| == |progs| && forall k :: 0 <= k < |order| ==> order[k] < |progs|
    requires x < |Blocks(progs, pcs, order)|
    ensures Blocks(progs, pcs, order)[x].op in order
  {
    var n := |order| - 1;
    if x < |Blocks(progs, pcs, order[..n])| {
      BlocksOps(progs, pcs, order[..n], x);
    }
  }

  lemma {:induction false} BlocksContiguous(progs: seq<Program>, pcs: seq<nat>, order: seq<nat>, x: nat, y: nat, z: nat)
    requires |pcs| == |progs| && forall k :: 0 <= k < |order| ==> order[k] < |progs|
    requires forall j, k :: 0 <= j < k < |order| ==> order[j] != order[k]
    requires x < y < z < |Blocks(progs, pcs, order)|
    requires Blocks(progs, pcs, order)[x].op == Blocks(progs, pcs, order)[z].op
    ensures Blocks(progs, pcs, order)[y].op == Blocks(progs, pcs, order)[x].op
  {
    var n := |order| - 1;
    var earlier := Blocks(progs, pcs, order[..n]);
    if z < |earlier| {
      BlocksContiguous(progs, pcs, order[..n], x, y, z);
    } else if x < |earlier| {
      BlocksOps(progs, pcs, order[..n], x);
    }
  }

  /** Between two link operations of one client operation there is never one of another. */
  lemma NothingInBetween(progs: seq<Program>, schedule: seq<nat>, x: nat, y: nat, z: nat)
    requires AllDisciplined(progs) && x < y < z < |Run(progs, schedule).trace|
    requires Run(progs, schedule).trace[x].op == Run(progs, schedule).trace[z].op
    ensures Run(progs, schedule).trace[y].op == Run(progs, schedule).trace[x].op
  {
    ExchangesStayWhole(progs, schedule);
    var w := Run(progs, schedule);
    BlocksContiguous(progs, w.pcs, w.order, x, y, z);
  }

  /** Nobody waits forever on a lock that nobody will release: while an operation is unfinished, one can move. */
  lemma NoDeadlock(progs: seq<Program>, schedule: seq<nat>, i: nat)
    requires AllDisciplined(progs) && i < |progs|
    requires Run(progs, schedule).pcs[i] < |progs[i]|
    ensures exists j: nat :: Step(progs, Run(progs, schedule), j).pcs != Run(progs, schedule).pcs
  {
    var w := Run(progs, schedule);
    ExchangesStayWhole(progs, schedule);
    var j := if w.holder.Some? then w.holder.value else i;
    assert Disciplined(progs[j]);
    var w' := Step(progs, w, j);
    if w.holder.Some? {
      BlockGrows(progs, j, w.pcs[j]);
    }
    assert w'.pcs[j] == w.pcs[j] + 1;
  }
}
