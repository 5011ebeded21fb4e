/** The queues and the device as the driver holds them, updated in place. `tdh`, `rdh`, `tdt` and
    `rdt` are the queue's registers; `wb` is the slot the NIC writes back next. The NIC shares
    the descriptors: a call that reads status more than once takes as `nic` what the NIC does
    before each read. */
module Igb {
  import opened Results
  import opened RingIndex
  import opened Buffers
  import opened MemPools
  import Startup
  import T = Transmit
  import R = Receive

  /** A refused packet goes back to its pool's stack. */
  ghost predicate Refused(r: Result<()>, error: IgbError, buf: NetBuf, before: Pool)
    reads buf.pool
  {
    match PushFree(before, buf.entry)
    case Ok(pool) => r == Err(error) && buf.pool.View() == pool
    case _ => r == Panic && buf.pool.freeStack == before.free
  }

  class IgbTxQueue {
    const numDescriptors: nat
    const descriptors: array<T.TxDesc>
    var pool: MemPool?
    var bufsInUse: seq<nat>
    var cleanIndex: nat
    var txIndex: nat
    var tdh: nat
    var wb: nat
    var tdt: nat

    function View(): T.TxRing
      reads this, descriptors
    {
      T.TxRing(numDescriptors, descriptors[..], bufsInUse, cleanIndex, txIndex, tdh, wb, tdt)
    }

    /** The free stack of the queue's pool. */
    ghost function Stack(): seq<nat>
      reads this, pool
    {
      if pool == null then [] else pool.freeStack
    }

    /** An empty queue with cleared descriptors. */
    constructor (n: nat)
      ensures View() == Startup.TxStarted(n) && pool == null && fresh(descriptors)
    {
      numDescriptors := n;
      descriptors := new T.TxDesc[n](_ => T.TxDesc(0, 0, false));
      pool, bufsInUse, cleanIndex, txIndex, tdh, wb, tdt := null, [], 0, 0, 0, 0, 0;
      new;
      assert descriptors[..] == Startup.TxStarted(n).descs;
    }

    /** `start_tx_queue`: the size check, and both registers back to 0. */
    method Start() returns (r: Result<()>)
      requires numDescriptors >= 1
      modifies this`tdh, this`tdt
      ensures if SizeGuard(numDescriptors) then r == Ok(()) && View() == old(View()).(head := 0, tail := 0)
              else r == Err(QueueNotAligned) && View() == old(View())
    {
      if !SizeGuard(numDescriptors) {
        return Err(QueueNotAligned);
      }
      tdh, tdt := 0, 0;
      r := Ok(());
    }

    method CanSend() returns (r: bool)
      requires T.Shape(View())
      ensures r == T.CanSend(View())
    {
      var next := WrapRing(txIndex, numDescriptors);
      r := next != cleanIndex;
    }

    /** What the NIC does to the ring on its own. */
    method NicActs(steps: seq<T.TxNicStep>)
      requires T.Shape(View())
      modifies this`tdh, this`wb, descriptors
      ensures View() == T.NicRun(old(View()), steps)
    {
      var i := 0;
      while i < |steps|
        invariant 0 <= i <= |steps| && T.Shape(View())
        invariant T.NicRun(old(View()), steps) == T.NicRun(View(), steps[i..])
      {
        ghost var before := View();
        T.NicStepShape(before, steps[i]);
        match steps[i] {
          case Fetch =>
            if tdh != tdt {
              tdh := WrapRing(tdh, numDescriptors);
            }
          case WriteBack(addr, len) =>
            if wb != tdh {
              descriptors[wb] := T.TxDesc(addr, len, true);
              wb := WrapRing(wb, numDescriptors);
            }
        }
        assert View() == T.NicStep(before, steps[i]);
        assert steps[i..][0] == steps[i] && steps[i..][1..] == steps[i + 1..];
        i := i + 1;
      }
    }

    /** Whether the last descriptor of the oldest batch is done, and where it is. */
    method BatchDone(clean: nat) returns (ready: bool, to: nat)
      requires T.Shape(View()) && clean < numDescriptors
      ensures ready == T.BatchReady(View(), clean) && to == T.BatchEnd(View(), clean)
    {
      T.CleanableIsDistance(View(), clean);
      var cleanable := T.AsI32(txIndex) - T.AsI32(clean);
      if cleanable < 0 {
        cleanable := cleanable + T.AsI32(numDescriptors);
      }
      to := clean + T.TX_CLEAN_BATCH - 1;
      if to >= numDescriptors {
        to := to - numDescriptors;
      }
      ready := cleanable >= T.TX_CLEAN_BATCH && descriptors[to].done;
    }

    /** Moves the oldest batch of ids, or all if there are no more than that, to the stack of the
        queue's pool. */
    method DrainBatch()
      modifies this`bufsInUse, pool
      ensures View() == T.AfterBatch(old(View()), pool != null)
      ensures Stack() == old(Stack()) + T.Drained(old(View()), pool != null)
    {
      if pool != null {
        if T.TX_CLEAN_BATCH >= |bufsInUse| {
          pool.freeStack := pool.freeStack + bufsInUse;
          bufsInUse := [];
        } else {
          pool.freeStack := pool.freeStack + bufsInUse[..T.TX_CLEAN_BATCH];
          bufsInUse := bufsInUse[T.TX_CLEAN_BATCH..];
        }
      }
    }

    /** One pass of the recycling loop, after the NIC has acted. */
    method RecyclePass(clean: nat, acts: seq<T.TxNicStep>) returns (more: bool, clean': nat)
      requires T.Shape(View()) && clean < numDescriptors
      modifies this`tdh, this`wb, this`bufsInUse, descriptors, pool
      ensures var ring := T.NicRun(old(View()), acts);
        more == T.BatchReady(ring, clean)
        && View() == (if more then T.AfterBatch(ring, pool != null) else ring)
        && clean' == (if more then WrapRing(T.BatchEnd(ring, clean), ring.n) else clean)
        && Stack() == (if more then old(Stack()) + T.Drained(ring, pool != null) else old(Stack()))
    {
      NicActs(acts);
      var to;
      more, to := BatchDone(clean);
      clean' := clean;
      if more {
        DrainBatch();
        clean' := WrapRing(to, numDescriptors);
      }
    }

    /** `recycle_tx_buffers`: the ring and the pool's stack end as `Transmit.Recycle` says. */
    method RecycleTxBuffers(nic: nat -> seq<T.TxNicStep>)
      requires T.Shape(View())
      modifies this, descriptors, pool
      ensures pool == old(pool)
      ensures var out := T.Recycle(old(View()), old(cleanIndex), pool != null, nic, 0);
        View() == out.ring && Stack() == old(Stack()) + out.freed
    {
      var clean: nat, j: nat, more := cleanIndex, 0, true;
      ghost var hasPool, stack := pool != null, Stack();
      ghost var l := TxLoop(View(), clean, j, [], 0);
      ghost var out := T.Recycle(l.ring, clean, hasPool, nic, 0);
      assert l.freed + out.freed == out.freed && stack + l.freed == stack;
      while more
        invariant l.ring == View() && l.clean == clean && l.j == j && T.Shape(l.ring) && clean < l.ring.n
        invariant pool == old(pool) && Stack() == stack + l.freed
        invariant out == if more then RecycleResult(l, hasPool, nic) else T.Recycled(l.ring.(clean := clean), l.freed, l.batches)
        decreases more, T.Cleanable(l.ring, clean)
      {
        OneMorePass(l, hasPool, nic);
        Regroup(stack, l.freed, T.Drained(T.NicRun(l.ring, nic(j)), hasPool));
        more, clean := RecyclePass(clean, nic(j));
        l := if more then NextBatch(l, hasPool, nic) else l.(ring := View(), j := j + 1);
        j := j + 1;
      }
      cleanIndex := clean;
    }

    /** `send`: the packet's entry goes into the ring and the queue takes over the packet's pool;
        a full queue refuses it, and the refused packet is dropped. */
    method Send(buf: NetBuf) returns (r: Result<()>)
      requires T.Shape(View())
      modifies this, descriptors, buf.pool
      ensures if T.CanSend(old(View())) then
                r == Ok(()) && View() == T.Ring(T.Post(old(View()), buf.phys, buf.len, buf.entry))
                && pool == buf.pool && buf.pool.freeStack == old(buf.pool.freeStack)
              else
                View() == old(View()) && pool == old(pool) && Refused(r, QueueFull, buf, old(buf.pool.View()))
    {
      var able := CanSend();
      if !able {
        var dropped := buf.pool.FreeBuf(buf.entry);
        return if dropped.Ok? then Err(QueueFull) else Panic;
      }
      var cur := txIndex;
      if pool == null || pool != buf.pool {
        pool := buf.pool;
      }
      assert pool == buf.pool;
      txIndex := WrapRing(txIndex, numDescriptors);
      descriptors[cur] := T.TxDesc(buf.phys, buf.len % 0x1_0000, false);
      bufsInUse := bufsInUse + [buf.entry];
      tdt := txIndex;
      r := Ok(());
    }
  }

  /** The recycling loop before pass `j`, with `freed` freed in `batches` passes. */
  datatype TxLoop = TxLoop(ring: T.TxRing, clean: nat, j: nat, freed: seq<nat>, batches: nat)

  /** The result of the whole call. */
  ghost function RecycleResult(l: TxLoop, hasPool: bool, nic: nat -> seq<T.TxNicStep>): T.Recycled
    requires T.Shape(l.ring) && l.clean < l.ring.n
  {
    var rest := T.Recycle(l.ring, l.clean, hasPool, nic, l.j);
    T.Recycled(rest.ring, l.freed + rest.freed, l.batches + rest.batches)
  }

  /** After a pass that frees a batch. */
  ghost function NextBatch(l: TxLoop, hasPool: bool, nic: nat -> seq<T.TxNicStep>): TxLoop
    requires T.Shape(l.ring)
  {
    var ring := T.NicRun(l.ring, nic(l.j));
    TxLoop(T.AfterBatch(ring, hasPool), WrapRing(T.BatchEnd(ring, l.clean), ring.n), l.j + 1,
           l.freed + T.Drained(ring, hasPool), l.batches + 1)
  }

  lemma OneMorePass(l: TxLoop, hasPool: bool, nic: nat -> seq<T.TxNicStep>)
    requires T.Shape(l.ring) && l.clean < l.ring.n
    ensures var ring, next := T.NicRun(l.ring, nic(l.j)), NextBatch(l, hasPool, nic);
      if T.BatchReady(ring, l.clean) then
        T.Shape(next.ring) && next.clean < next.ring.n && T.Cleanable(next.ring, next.clean) < T.Cleanable(l.ring, l.clean)
        && RecycleResult(l, hasPool, nic) == RecycleResult(next, hasPool, nic)
      else RecycleResult(l, hasPool, nic) == T.Recycled(ring.(clean := l.clean), l.freed, l.batches)
  {
    var ring, next := T.NicRun(l.ring, nic(l.j)), NextBatch(l, hasPool, nic);
    if T.BatchReady(ring, l.clean) {
      T.RecycleUnfolds(l.ring, l.clean, hasPool, nic, l.j);
      Regroup(l.freed, T.Drained(ring, hasPool), T.Recycle(next.ring, next.clean, hasPool, nic, next.j).freed);
    }
  }

  class IgbRxQueue {
    const numDescriptors: nat
    const descriptors: array<R.RxDesc>
    const pool: MemPool
    var bufsInUse: seq<nat>
    var rxIndex: nat
    var rdh: nat
    var wb: nat
    var rdt: nat

    function View(): R.RxRing
      reads this, descriptors
    {
      R.RxRing(numDescriptors, descriptors[..], bufsInUse, rxIndex, rdh, wb, rdt)
    }

    constructor (n: nat, pool: MemPool)
      ensures View() == Unstarted(n)
      ensures this.pool == pool && fresh(descriptors)
    {
      numDescriptors := n;
      this.pool := pool;
      descriptors := new R.RxDesc[n](_ => R.RxDesc(0, 0, false, false));
      bufsInUse, rxIndex, rdh, wb, rdt := [], 0, 0, 0, 0;
      new;
      assert descriptors[..] == Unstarted(n).descs;
    }

    method CanRecv() returns (r: bool)
      requires R.Shape(View())
      ensures r == R.CanRecv(View())
    {
      r := descriptors[rxIndex].done;
    }

    /** What the NIC does to the ring on its own. */
    method NicActs(steps: seq<R.RxNicStep>)
      requires R.Shape(View())
      modifies this`rdh, this`wb, descriptors
      ensures View() == R.NicRun(old(View()), steps)
    {
      var i := 0;
      while i < |steps|
        invariant 0 <= i <= |steps| && R.Shape(View())
        invariant R.NicRun(old(View()), steps) == R.NicRun(View(), steps[i..])
      {
        ghost var before := View();
        R.NicStepShape(before, steps[i]);
        match steps[i] {
          case Filled =>
            if rdh != rdt {
              rdh := WrapRing(rdh, numDescriptors);
            }
          case WrittenBack(len, junk) =>
            if wb != rdh {
              descriptors[wb] := R.RxDesc(junk, len, true, true);
              wb := WrapRing(wb, numDescriptors);
            }
        }
        assert View() == R.NicStep(before, steps[i]);
        assert steps[i..][0] == steps[i] && steps[i..][1..] == steps[i + 1..];
        i := i + 1;
      }
    }

    /** `start_rx_queue`: pops an entry for every slot and arms it, hands the NIC all slots but one. */
    method Start() returns (r: Result<()>)
      requires pool.Valid() && numDescriptors >= 1 && View() == Unstarted(numDescriptors)
      modifies this, descriptors, pool
      ensures pool.Valid() && r != Panic
      ensures r == Err(QueueNotAligned) <==> !SizeGuard(numDescriptors)
      ensures r == Err(QueueNotAligned) ==> pool.freeStack == old(pool.freeStack)
      ensures r.Err? && r != Err(QueueNotAligned) ==>
                r == Err(NoMemory) && numDescriptors > |old(pool.freeStack)| && pool.freeStack == []
      ensures r.Ok? ==>
                numDescriptors <= |old(pool.freeStack)|
                && View() == Startup.RxStarted(Popped(old(pool.freeStack), numDescriptors), pool.physAddr)
                && pool.freeStack == old(pool.freeStack)[..|old(pool.freeStack)| - numDescriptors]
    {
      assert |descriptors[..]| == numDescriptors;
      if !SizeGuard(numDescriptors) {
        return Err(QueueNotAligned);
      }
      ghost var free := pool.freeStack;
      for i := 0 to numDescriptors
        invariant pool.Valid() && i <= |free| && pool.freeStack == free[..|free| - i]
        invariant bufsInUse == Popped(free, i) && rxIndex == 0 && wb == 0
        invariant forall k :: 0 <= k < i ==> bufsInUse[k] < |pool.physAddr|
        invariant forall k :: 0 <= k < i ==> descriptors[k] == R.RxDesc(pool.physAddr[bufsInUse[k]], 0, false, false)
      {
        var id := pool.AllocBuf();
        if id == None {
          return Err(NoMemory);
        }
        descriptors[i] := R.RxDesc(pool.physAddr[id.value], 0, false, false);
        bufsInUse := bufsInUse + [id.value];
      }
      rdh, rdt := 0, numDescriptors - 1;
      assert descriptors[..] == Startup.RxStarted(bufsInUse, pool.physAddr).descs;
      r := Ok(());
    }

    /** One pass of the receive loop, after the NIC has acted; no packet means the loop stops. */
    method ReceivePass(rx: nat, f: R.Closure, j: nat, acts: seq<R.RxNicStep>) returns (r: Result<Option<NetBuf>>)
      requires R.Shape(View()) && rx < numDescriptors
      modifies this`rdh, this`wb, this`bufsInUse, descriptors, pool
      ensures var ring := R.NicRun(old(View()), acts);
        match R.OnePass(ring, old(pool.View()), rx, f, j)
        case Stop => r == Ok(None) && View() == ring && pool.freeStack == old(pool.freeStack)
        case Crash => r == Panic
        case Deliver(ring', pool', given) =>
          r.Ok? && r.value.Some? && IsPacket(r.value.value, given, pool) && View() == ring' && pool.View() == pool'
    {
      NicActs(acts);
      var desc := descriptors[rx];
      if !desc.done {
        return Ok(None);
      }
      if !desc.eop {
        return Panic;
      }
      var buf := pool.AllocBuf();
      if buf == None {
        return Ok(None);
      }
      var idx := bufsInUse[rx];
      bufsInUse := bufsInUse[rx := buf.value];
      var virt := pool.GetVirtAddr(idx);
      if virt.Panic? {
        return Panic;
      }
      var packet := NetBuf(pool, idx, virt.value, pool.physAddr[idx], R.SeenLength(desc));
      var used := pool.Use(f(j, idx));
      if used.Panic? {
        return Panic;
      }
      if bufsInUse[rx] >= |pool.physAddr| {
        return Panic;
      }
      descriptors[rx] := R.RxDesc(pool.physAddr[bufsInUse[rx]], 0, false, false);
      r := Ok(Some(packet));
    }

    /** The loop of `receive_packets` and what follows it. */
    method ReceiveAll(packetNums: nat, f: R.Closure, nic: nat -> seq<R.RxNicStep>)
      returns (r: Result<seq<NetBuf>>)
      requires R.Shape(View())
      modifies this, descriptors, pool
      ensures match R.ReceiveLoop(old(View()), old(pool.View()), packetNums, old(rxIndex), old(rxIndex), f, nic, 1)
              case Ok(out) => r.Ok? && Shown(r.value, out.given, pool) && View() == out.ring && pool.View() == out.pool
              case _ => r == Panic
    {
      var rx: nat, last: nat := rxIndex, rxIndex;
      var given: seq<NetBuf> := [];
      var left, j := packetNums, 1;
      ghost var l := RxLoop(View(), pool.View(), left, rx, last, j, []);
      ghost var out := Outcome(l, f, nic);
      NothingToldYet(l, f, nic);
      while left > 0
        invariant l.ring == View() && l.pool == pool.View() && l.left == left && l.rx == rx && l.last == last && l.j == j
        invariant Fits(l) && Shown(given, l.told, pool) && out == Outcome(l, f, nic)
      {
        ghost var pass := R.OnePass(R.NicRun(l.ring, nic(j)), l.pool, rx, f, j);
        if pass.Deliver? { OneMorePacket(l, f, nic, pass); } else { LastPacket(l, f, nic, pass); }
        var packet := ReceivePass(rx, f, j, nic(j));
        if packet.Panic? {
          return Panic;
        }
        if packet.value == None {
          l := l.(ring := View());
          break;
        }
        given := given + [packet.value.value];
        rx, last := WrapRing(rx, numDescriptors), rx;
        left, j := left - 1, j + 1;
        l := NextPass(l, pass);
      }
      if left == 0 {
        BudgetSpent(l, f, nic);
      }
      if rx != last {
        rdt, rxIndex := last, rx;
      }
      r := Ok(given);
    }

    /** `receive_packets`: what it hands to the closure, what it returns and what it leaves behind
        are those of `Receive.ReceiveLoop`. The closure `f` may take entries of the queue's pool
        and give entries back as it likes. */
    method ReceivePackets(packetNums: nat, f: R.Closure, nic: nat -> seq<R.RxNicStep>)
      returns (r: Result<nat>, given: seq<NetBuf>)
      requires R.Shape(View())
      modifies this, descriptors, pool
      ensures var r0 := R.NicRun(old(View()), nic(0));
        if !R.CanRecv(r0) then
          r == Err(NotReady) && given == [] && View() == r0 && pool.freeStack == old(pool.freeStack)
        else match R.ReceiveLoop(r0, old(pool.View()), packetNums, r0.rx, r0.rx, f, nic, 1)
          case Ok(out) => r == Ok(|given|) && Shown(given, out.given, pool) && View() == out.ring && pool.View() == out.pool
          case _ => r == Panic
    {
      NicActs(nic(0));
      var ready := CanRecv();
      if !ready {
        return Err(NotReady), [];
      }
      var got := ReceiveAll(packetNums, f, nic);
      if got.Ok? {
        return Ok(|got.value|), got.value;
      }
      return Panic, [];
    }
  }

  /** A receive queue before it is started: cleared descriptors and no buffers. */
  ghost function Unstarted(n: nat): R.RxRing {
    R.RxRing(n, seq(n, i => R.RxDesc(0, 0, false, false)), [], 0, 0, 0, 0)
  }

  /** The top `k` entries of a stack, in the order they are popped. */
  ghost function Popped(free: seq<nat>, k: nat): (ids: seq<nat>)
    requires k <= |free|
    ensures |ids| == k
  {
    seq(k, i requires 0 <= i < k => free[|free| - 1 - i])
  }

  /** A packet made of the listed entry, from its first byte on, with the listed length. */
  ghost predicate IsPacket(b: NetBuf, given: (nat, nat), pool: MemPool) {
    StartsAt(b, pool, given.0, 0) && b.len == given.1
  }

  ghost predicate Shown(given: seq<NetBuf>, told: seq<(nat, nat)>, pool: MemPool) {
    |given| == |told| && forall i :: 0 <= i < |given| ==> IsPacket(given[i], told[i], pool)
  }

  /** The receive loop before pass `j`, with `left` passes to go and `told` handed out. */
  datatype RxLoop = RxLoop(ring: R.RxRing, pool: Pool, left: nat, rx: nat, last: nat, j: nat, told: seq<(nat, nat)>)

  ghost predicate Fits(l: RxLoop) {
    R.Shape(l.ring) && l.rx < l.ring.n && l.last < l.ring.n
  }

  /** The result of the whole call. */
  ghost function Outcome(l: RxLoop, f: R.Closure, nic: nat -> seq<R.RxNicStep>): Result<R.Received>
    requires Fits(l)
  {
    Told(l.told, R.ReceiveLoop(l.ring, l.pool, l.left, l.rx, l.last, f, nic, l.j))
  }

  /** After a pass that delivers. */
  ghost function NextPass(l: RxLoop, pass: R.Pass): RxLoop
    requires Fits(l) && l.left > 0 && pass.Deliver?
  {
    RxLoop(pass.ring, pass.pool, l.left - 1, WrapRing(l.rx, l.ring.n), l.rx, l.j + 1, l.told + [pass.given])
  }

  lemma NothingToldYet(l: RxLoop, f: R.Closure, nic: nat -> seq<R.RxNicStep>)
    requires Fits(l) && l.told == []
    ensures Outcome(l, f, nic) == R.ReceiveLoop(l.ring, l.pool, l.left, l.rx, l.last, f, nic, l.j)
  {
    var rest := R.ReceiveLoop(l.ring, l.pool, l.left, l.rx, l.last, f, nic, l.j);
    if rest.Ok? {
      assert l.told + rest.value.given == rest.value.given;
    }
  }

  lemma OneMorePacket(l: RxLoop, f: R.Closure, nic: nat -> seq<R.RxNicStep>, pass: R.Pass)
    requires Fits(l) && l.left > 0 && pass == R.OnePass(R.NicRun(l.ring, nic(l.j)), l.pool, l.rx, f, l.j) && pass.Deliver?
    ensures Fits(NextPass(l, pass)) && Outcome(l, f, nic) == Outcome(NextPass(l, pass), f, nic)
  {
    R.LoopUnfolds(l.ring, l.pool, l.left, l.rx, l.last, f, nic, l.j, pass);
    SameOutcome(l, NextPass(l, pass), f, nic, pass.given, R.ReceiveLoop(l.ring, l.pool, l.left, l.rx, l.last, f, nic, l.j));
  }

  lemma LastPacket(l: RxLoop, f: R.Closure, nic: nat -> seq<R.RxNicStep>, pass: R.Pass)
    requires Fits(l) && l.left > 0 && pass == R.OnePass(R.NicRun(l.ring, nic(l.j)), l.pool, l.rx, f, l.j) && !pass.Deliver?
    ensures pass.Stop? ==>
              Outcome(l, f, nic) == Ok(R.Received(R.Finish(R.NicRun(l.ring, nic(l.j)), l.rx, l.last), l.pool, l.told))
    ensures pass.Crash? ==> Outcome(l, f, nic) == Panic
  {
    R.LoopUnfolds(l.ring, l.pool, l.left, l.rx, l.last, f, nic, l.j, pass);
    assert l.told + [] == l.told;
  }

  lemma SameOutcome(l: RxLoop, next: RxLoop, f: R.Closure, nic: nat -> seq<R.RxNicStep>, given: (nat, nat), out: Result<R.Received>)
    requires Fits(l) && Fits(next) && next.told == l.told + [given]
    requires out == R.ReceiveLoop(l.ring, l.pool, l.left, l.rx, l.last, f, nic, l.j)
    requires out == R.AddGiven(given, R.ReceiveLoop(next.ring, next.pool, next.left, next.rx, next.last, f, nic, next.j))
    ensures Outcome(l, f, nic) == Outcome(next, f, nic)
  {
    RegroupTold(l.told, given, R.ReceiveLoop(next.ring, next.pool, next.left, next.rx, next.last, f, nic, next.j));
  }

  /** The result with `told` put in front of what it hands out. */
  ghost function Told(told: seq<(nat, nat)>, rest: Result<R.Received>): Result<R.Received> {
    if rest.Ok? then Ok(rest.value.(given := told + rest.value.given)) else rest
  }

  lemma RegroupTold(told: seq<(nat, nat)>, given: (nat, nat), rest: Result<R.Received>)
    ensures Told(told, R.AddGiven(given, rest)) == Told(told + [given], rest)
  {
    if rest.Ok? {
      assert told + ([given] + rest.value.given) == told + [given] + rest.value.given;
    }
  }

  lemma BudgetSpent(l: RxLoop, f: R.Closure, nic: nat -> seq<R.RxNicStep>)
    requires Fits(l) && l.left == 0
    ensures Outcome(l, f, nic) == Ok(R.Received(R.Finish(l.ring, l.rx, l.last), l.pool, l.told))
  {
    assert l.told + [] == l.told;
  }
}
