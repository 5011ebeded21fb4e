/** `IgbDevice`: its queues, how `init` builds them, and the calls that select one by number. */
module Device {
  import opened Results
  import opened RingIndex
  import opened Buffers
  import opened MemPools
  import opened Igb
  import Startup
  import T = Transmit
  import R = Receive

  /** No two queues share an object, and all use `pool`. */
  ghost predicate RxApart(queues: seq<IgbRxQueue>, pool: MemPool) {
    (forall q :: 0 <= q < |queues| ==> queues[q].pool == pool)
    && forall q, q' :: 0 <= q < q' < |queues| ==>
         queues[q] != queues[q'] && queues[q].descriptors != queues[q'].descriptors
  }

  ghost predicate TxApart(queues: seq<IgbTxQueue>) {
    forall q, q' :: 0 <= q < q' < |queues| ==>
      queues[q] != queues[q'] && queues[q].descriptors != queues[q'].descriptors
  }

  ghost function RxFootprint(queues: seq<IgbRxQueue>): set<object> {
    (set q | 0 <= q < |queues| :: queues[q] as object) + (set q | 0 <= q < |queues| :: queues[q].descriptors as object)
  }

  method InitRx(numRx: nat, n: nat, pool: MemPool) returns (queues: seq<IgbRxQueue>)
    ensures |queues| == numRx && RxApart(queues, pool) && fresh(RxFootprint(queues))
    ensures forall q :: 0 <= q < numRx ==> queues[q].View() == Unstarted(n)
  {
    queues := [];
    for i := 0 to numRx
      invariant |queues| == i && RxApart(queues, pool)
      invariant forall q :: 0 <= q < i ==> fresh(queues[q]) && fresh(queues[q].descriptors) && queues[q].View() == Unstarted(n)
    {
      var queue := new IgbRxQueue(n, pool);
      queues := queues + [queue];
    }
  }

  method InitTx(numTx: nat, n: nat) returns (queues: seq<IgbTxQueue>)
    ensures |queues| == numTx && TxApart(queues)
    ensures forall q :: 0 <= q < numTx ==>
              fresh(queues[q]) && fresh(queues[q].descriptors) && queues[q].View() == Startup.TxStarted(n) && queues[q].pool == null
  {
    queues := [];
    for i := 0 to numTx
      invariant |queues| == i && TxApart(queues)
      invariant forall q :: 0 <= q < i ==>
        fresh(queues[q]) && fresh(queues[q].descriptors) && queues[q].View() == Startup.TxStarted(n) && queues[q].pool == null
    {
      var queue := new IgbTxQueue(n);
      queues := queues + [queue];
    }
  }

  /** What is left of the stack before queue `q` is started, and what that queue pops. */
  ghost function Left(free: seq<nat>, n: nat, q: nat): seq<nat> {
    if 0 <= q * n <= |free| then free[..|free| - q * n] else []
  }

  ghost function Share(free: seq<nat>, n: nat, q: nat): seq<nat> {
    if n <= |Left(free, n, q)| then Popped(Left(free, n, q), n) else []
  }

  lemma ShareIsStartIds(free: seq<nat>, num: nat, n: nat, q: nat)
    requires q < num && num * n <= |free|
    ensures Share(free, n, q) == Startup.StartIds(free, num, n, q)
  {
    MulMonotone(q + 1, num, n);
    assert (q + 1) * n == q * n + n;
    MulMonotone(0, q, n);
    forall i | 0 <= i < n ensures Share(free, n, q)[i] == Startup.StartIds(free, num, n, q)[i] {
      Startup.StackReaches(num, n, q, i, |free|);
    }
  }

  /** Starting one more queue: possible for all `num` if there is enough for all. */
  lemma LeftAfter(free: seq<nat>, num: nat, n: nat, q: nat)
    requires q < num && 0 <= q * n <= |free|
    ensures n <= |Left(free, n, q)| ==>
              0 <= (q + 1) * n <= |free| && Left(free, n, q + 1) == Left(free, n, q)[..|Left(free, n, q)| - n]
    ensures n > |Left(free, n, q)| ==> num * n > |free|
  {
    MulMonotone(q + 1, num, n);
    assert (q + 1) * n == q * n + n;
  }

  /** The queue runs with the entries `ids`. */
  ghost predicate StartedAs(queue: IgbRxQueue, ids: seq<nat>)
    reads queue, queue.descriptors
  {
    |ids| >= 1 && queue.View() == Startup.RxStarted(ids, queue.pool.physAddr)
  }

  /** Starts the receive queues in turn; the first failure ends it. */
  method StartRx(queues: seq<IgbRxQueue>, n: nat, pool: MemPool) returns (r: Result<()>)
    requires n >= 1 && pool.Valid() && RxApart(queues, pool) && forall q :: 0 <= q < |queues| ==> queues[q].View() == Unstarted(n)
    modifies RxFootprint(queues), pool
    ensures pool.Valid()
    ensures var free := old(pool.freeStack);
      if |queues| > 0 && !SizeGuard(n) then r == Err(QueueNotAligned) && pool.freeStack == free
      else if |queues| * n > |free| then r == Err(NoMemory) && pool.freeStack == []
      else r == Ok(()) && pool.freeStack == free[..|free| - |queues| * n]
           && forall q :: 0 <= q < |queues| ==> StartedAs(queues[q], Startup.StartIds(free, |queues|, n, q))
  {
    ghost var free := pool.freeStack;
    for i := 0 to |queues|
      invariant pool.Valid() && 0 <= i * n <= |free| && pool.freeStack == Left(free, n, i)
      invariant i > 0 ==> SizeGuard(n)
      invariant forall q :: 0 <= q < i ==> StartedAs(queues[q], Share(free, n, q))
      invariant forall q :: i <= q < |queues| ==> queues[q].View() == Unstarted(n)
    {
      LeftAfter(free, |queues|, n, i);
      var started := queues[i].Start();
      if !started.Ok? {
        return started;
      }
    }
    forall q | 0 <= q < |queues| ensures StartedAs(queues[q], Startup.StartIds(free, |queues|, n, q)) {
      ShareIsStartIds(free, |queues|, n, q);
    }
    r := Ok(());
  }

  method StartTx(queues: seq<IgbTxQueue>, n: nat) returns (r: Result<()>)
    requires n >= 1 && TxApart(queues)
    requires forall q :: 0 <= q < |queues| ==> queues[q].View() == Startup.TxStarted(n) && queues[q].pool == null
    modifies set q | 0 <= q < |queues| :: queues[q]
    ensures r == if |queues| > 0 && !SizeGuard(n) then Err(QueueNotAligned) else Ok(())
    ensures forall q :: 0 <= q < |queues| ==> queues[q].View() == Startup.TxStarted(n) && queues[q].pool == null
  {
    for i := 0 to |queues|
      invariant i > 0 ==> SizeGuard(n)
      invariant forall q :: 0 <= q < |queues| ==> queues[q].View() == Startup.TxStarted(n) && queues[q].pool == null
    {
      var started := queues[i].Start();
      if !started.Ok? {
        return started;
      }
    }
    r := Ok(());
  }

  class IgbDevice {
    const rxQueues: seq<IgbRxQueue>
    const txQueues: seq<IgbTxQueue>

    constructor (rxs: seq<IgbRxQueue>, txs: seq<IgbTxQueue>)
      ensures rxQueues == rxs && txQueues == txs
    {
      rxQueues, txQueues := rxs, txs;
    }

    /** `init`: the queues and the stack that `Startup.Init` gives, on success and on failure. */
    static method Init(numRx: nat, numTx: nat, n: nat, pool: MemPool) returns (r: Result<IgbDevice>)
      requires n >= 1 && pool.Valid()
      modifies pool
      ensures pool.Valid() && r != Panic
      ensures var free := old(pool.freeStack);
        if numRx + numTx > 0 && !SizeGuard(n) then r == Err(QueueNotAligned) && pool.freeStack == free
        else if numRx * n > |free| then r == Err(NoMemory) && pool.freeStack == []
        else r.Ok? && pool.freeStack == free[..|free| - numRx * n] && fresh(r.value)
             && |r.value.rxQueues| == numRx && |r.value.txQueues| == numTx
             && RxApart(r.value.rxQueues, pool) && TxApart(r.value.txQueues)
             && (forall q :: 0 <= q < numRx ==> StartedAs(r.value.rxQueues[q], Startup.StartIds(free, numRx, n, q)))
             && (forall q :: 0 <= q < numTx ==>
                   r.value.txQueues[q].View() == Startup.TxStarted(n) && r.value.txQueues[q].pool == null)
    {
      var rxs := InitRx(numRx, n, pool);
      var txs := InitTx(numTx, n);
      var started := StartRx(rxs, n, pool);
      if started.Err? {
        return Err(started.error);
      }
      started := StartTx(txs, n);
      if started.Err? {
        return Err(started.error);
      }
      var device := new IgbDevice(rxs, txs);
      r := Ok(device);
    }

    /** A packet sent to a queue that does not exist is dropped. */
    method Send(queueId: nat, buf: NetBuf) returns (r: Result<()>)
      requires queueId < |txQueues| ==> T.Shape(txQueues[queueId].View())
      modifies if queueId < |txQueues| then {txQueues[queueId], txQueues[queueId].descriptors, buf.pool} else {buf.pool}
      ensures queueId < |txQueues| ==>
                var queue := txQueues[queueId];
                if T.CanSend(old(queue.View())) then
                  r == Ok(()) && queue.View() == T.Ring(T.Post(old(queue.View()), buf.phys, buf.len, buf.entry))
                  && queue.pool == buf.pool && buf.pool.freeStack == old(buf.pool.freeStack)
                else queue.View() == old(queue.View()) && Refused(r, QueueFull, buf, old(buf.pool.View()))
      ensures queueId >= |txQueues| ==> Refused(r, InvalidQueue, buf, old(buf.pool.View()))
    {
      if queueId >= |txQueues| {
        var dropped := DropBuf(buf);
        return if dropped.Ok? then Err(InvalidQueue) else Panic;
      }
      r := txQueues[queueId].Send(buf);
    }

    method CanReceive(queueId: nat) returns (r: Result<bool>)
      requires queueId < |rxQueues| ==> R.Shape(rxQueues[queueId].View())
      ensures r == if queueId < |rxQueues| then Ok(R.CanRecv(rxQueues[queueId].View())) else Err(InvalidQueue)
    {
      if queueId >= |rxQueues| {
        return Err(InvalidQueue);
      }
      var able := rxQueues[queueId].CanRecv();
      r := Ok(able);
    }

    method CanSend(queueId: nat) returns (r: Result<bool>)
      requires queueId < |txQueues| ==> T.Shape(txQueues[queueId].View())
      ensures r == if queueId < |txQueues| then Ok(T.CanSend(txQueues[queueId].View())) else Err(InvalidQueue)
    {
      if queueId >= |txQueues| {
        return Err(InvalidQueue);
      }
      var able := txQueues[queueId].CanSend();
      r := Ok(able);
    }

    method RecycleTxBuffers(queueId: nat, nic: nat -> seq<T.TxNicStep>) returns (r: Result<()>)
      requires queueId < |txQueues| ==> T.Shape(txQueues[queueId].View())
      modifies if queueId < |txQueues| then {txQueues[queueId], txQueues[queueId].descriptors} else {}
      modifies if queueId < |txQueues| then {txQueues[queueId].pool} else {}
      ensures r == if queueId < |txQueues| then Ok(()) else Err(InvalidQueue)
      ensures queueId < |txQueues| ==>
                var queue := txQueues[queueId];
                var out := T.Recycle(old(queue.View()), old(queue.cleanIndex), queue.pool != null, nic, 0);
                queue.pool == old(queue.pool) && queue.View() == out.ring
                && (queue.pool != null ==> queue.pool.freeStack == old(queue.pool.freeStack) + out.freed)
    {
      if queueId >= |txQueues| {
        return Err(InvalidQueue);
      }
      txQueues[queueId].RecycleTxBuffers(nic);
      r := Ok(());
    }

    method ReceivePackets(queueId: nat, packetNums: nat, f: R.Closure, nic: nat -> seq<R.RxNicStep>)
      returns (r: Result<nat>, given: seq<NetBuf>)
      requires queueId < |rxQueues| ==> R.Shape(rxQueues[queueId].View())
      modifies if queueId < |rxQueues| then {rxQueues[queueId], rxQueues[queueId].descriptors, rxQueues[queueId].pool} else {}
      ensures queueId >= |rxQueues| ==> r == Err(InvalidQueue) && given == []
      ensures queueId < |rxQueues| ==>
                var queue := rxQueues[queueId];
                var r0 := R.NicRun(old(queue.View()), nic(0));
                if !R.CanRecv(r0) then
                  r == Err(NotReady) && given == [] && queue.View() == r0 && queue.pool.freeStack == old(queue.pool.freeStack)
                else match R.ReceiveLoop(r0, old(queue.pool.View()), packetNums, r0.rx, r0.rx, f, nic, 1)
                  case Ok(out) =>
                    r == Ok(|given|) && Shown(given, out.given, queue.pool)
                    && queue.View() == out.ring && queue.pool.View() == out.pool
                  case _ => r == Panic
    {
      if queueId >= |rxQueues| {
        return Err(InvalidQueue), [];
      }
      r, given := rxQueues[queueId].ReceivePackets(packetNums, f, nic);
    }
  }
}
