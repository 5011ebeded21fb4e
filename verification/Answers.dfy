/** What each call answers and leaves behind, from start to end, in every state the invariant
    allows: nothing but what is said here changes. */
module Answers {
  import opened Results
  import opened RingIndex
  import opened Buffers
  import opened System
  import opened Invariant
  import opened Preservation
  import opened Calls
  import QueueSteps
  import T = Transmit
  import R = Receive

  // ---- panics ----

  /** Freeing the packet's entry fails: it is no entry of the pool, or free already. */
  predicate BadFree(s: Sys, h: nat) {
    h in s.pkts && s.pkts[h].pool < |s.pools|
    && (s.pkts[h].entry >= |s.pools[s.pkts[h].pool].phys| || s.pkts[h].entry in s.pools[s.pkts[h].pool].free)
  }

  /** Where the code panics: an id outside the pool given to or taken from it, a double free, a frame
      that does not end in its buffer. */
  predicate Panics(s: Sys, step: Step)
    requires Formed(s)
  {
    match step
    case Alloc(p, size, h) =>
      p < |s.pools| && h !in s.pkts && AllocFits(s.pools[p].entrySize, size)
      && s.pools[p].free != [] && s.pools[p].free[|s.pools[p].free| - 1] >= |s.pools[p].phys|
    case Drop(h) => BadFree(s, h)
    case Construct(p, id, _, h) => p < |s.pools| && h !in s.pkts && id >= |s.pools[p].phys|
    case Send(q, h) => s.op == Idle && BadFree(s, h) && (q < |s.txs| ==> !T.CanSend(s.txs[q].ring))
    case ReceiveIter(h) =>
      s.op.Receiving? && s.op.budget > 0
      && (var Q := s.rxs[s.op.q];
          Q.ring.descs[s.op.rx].done
          && (!Q.ring.descs[s.op.rx].eop
              || (s.pools[Q.pool].free != [] && h !in s.pkts && Q.ring.inUse[s.op.rx] >= |s.pools[Q.pool].phys|)))
    case CallbackReturn =>
      s.op.InCallback? && s.rxs[s.op.q].ring.inUse[s.op.rx] >= |s.pools[s.rxs[s.op.q].pool].phys|
    case _ => false
  }

  /** The steps panic there and nowhere else, in any state, so that a run without panics is one in which
      none of this happens. */
  lemma PanicsExact(s: Sys, step: Step)
    requires Formed(s)
    ensures NextState(s, step).Panicked? <==> Panics(s, step)
  {
  }

  // ---- packets ----

  /** `alloc` takes the top entry, 32 bytes in, if the packet fits behind them and an entry is free;
      otherwise it changes nothing. */
  lemma AllocAnswer(s: Sys, p: nat, size: nat, h: nat)
    requires Inv(s) && p < |s.pools| && h !in s.pkts
    ensures AllocStep(s, p, size, h).Next?
    ensures var s', pool := AllocStep(s, p, size, h).s, s.pools[p];
      if 32 + size <= pool.entrySize && pool.free != [] then
        h in s'.pkts && s'.pkts - {h} == s.pkts && s'.pools[p].free + [s'.pkts[h].entry] == pool.free
        && s'.pkts[h].pool == p && s'.pkts[h].addr == EntryBase(s, Buf(p, s'.pkts[h].entry)) + 32 && |s'.pkts[h].data| == size
        && s' == s.(pools := s.pools[p := pool.(free := s'.pools[p].free)], pkts := s'.pkts)
      else s' == s
  {
    AllocKeeps(s, p, size, h);
    if s.pools[p].free != [] {
      FreeIdsInPool(s, p, |s.pools[p].free| - 1);
    }
    assert s.pkts - {h} == s.pkts;
    var s' := AllocStep(s, p, size, h).s;
    if h in s'.pkts {
      assert s'.pkts - {h} == s.pkts;
    }
  }

  /** The packet's entry on the stack of its pool, the packet gone. */
  function Dropped(s: Sys, h: nat): Sys
    requires h in s.pkts && s.pkts[h].pool < |s.pools|
  {
    var p := s.pkts[h].pool;
    s.(pools := s.pools[p := s.pools[p].(free := s.pools[p].free + [s.pkts[h].entry])], pkts := s.pkts - {h})
  }

  lemma DropAnswer(s: Sys, h: nat)
    requires Inv(s) && h in s.pkts
    ensures s.pkts[h].pool < |s.pools| && NextState(s, Drop(h)) == Next(Dropped(s, h))
  {
    ClientInPool(s, h);
  }

  // ---- send ----

  lemma CanSendNow(s: Sys, q: nat)
    requires Inv(s) && s.op == Idle && q < |s.txs|
    ensures T.CanSend(s.txs[q].ring) <==> |s.txs[q].ring.inUse| < s.txs[q].ring.n - 1
    ensures |s.txs[q].ring.inUse| <= s.txs[q].ring.n - 1
  {
    var Q := s.txs[q];
    assert TxOk(Q, CleanIndex(s, q), Posted(s, q), |s.pools|);
    T.CanSendExact(Q.ring, Cleaned(Q), Q.written, |Q.wire|, |Q.sent|, |Q.sent|);
  }

  /** The step of a refused `send`, by the tests it makes. */
  lemma RefusedStep(s: Sys, q: nat, h: nat)
    requires Formed(s) && s.op == Idle && h in s.pkts && (q < |s.txs| ==> !T.CanSend(s.txs[q].ring))
    requires s.pkts[h].pool < |s.pools| && PushFree(s.pools[s.pkts[h].pool], s.pkts[h].entry).Ok?
    ensures SendStep(s, q, h) == Next(Dropped(s, h))
  {
  }

  /** `send` to a queue that does not exist, or has n-1 packets in flight, frees the packet and changes
      nothing else. */
  lemma SendRefused(s: Sys, q: nat, h: nat)
    requires Inv(s) && s.op == Idle && h in s.pkts
    requires q >= |s.txs| || |s.txs[q].ring.inUse| == s.txs[q].ring.n - 1
    ensures s.pkts[h].pool < |s.pools| && NextState(s, Send(q, h)) == Next(Dropped(s, h))
  {
    ClientInPool(s, h);
    if q < |s.txs| {
      CanSendNow(s, q);
    }
    RefusedStep(s, q, h);
  }

  /** The transmit queue after an accepted packet: the next slot holds its descriptor, not done, its
      id is the newest in flight, the queue has its pool, and the tail register is one slot on. */
  ghost predicate Accepted(Q: TxQueue, Q': TxQueue, p: Packet)
    requires T.Shape(Q.ring)
  {
    var r, r' := Q.ring, Q'.ring;
    r'.n == r.n && r'.descs == r.descs[r.tx := T.TxDesc(p.addr, |p.data| % 0x1_0000, false)]
    && r'.inUse == r.inUse + [p.entry] && r'.tx == r'.tail == (r.tx + 1) % r.n
    && r'.clean == r.clean && r'.head == r.head && r'.wb == r.wb
    && Q' == Q.(ring := r', pool := Some(p.pool), sent := Q.sent + [p.data])
  }

  /** The step of an accepted `send`, by the test it makes: the queue takes over the packet's pool. */
  lemma AcceptedStep(s: Sys, q: nat, h: nat)
    requires Formed(s) && s.op == Idle && q < |s.txs| && h in s.pkts && T.CanSend(s.txs[q].ring)
    ensures SendStep(s, q, h).Next?
    ensures var s', Q', p := SendStep(s, q, h).s, SendStep(s, q, h).s.txs, s.pkts[h];
      |Q'| == |s.txs| && Q'[q].pool == Some(p.pool) && Q'[q].sent == s.txs[q].sent + [p.data]
      && Q'[q].ring == T.Post(s.txs[q].ring, p.addr, |p.data|, p.entry) && Q'[q].wire == s.txs[q].wire
      && s'.op == Sending(q) && s'.pkts == s.pkts - {h} && s'.pools == s.pools
  {
  }

  /** `send` to a queue with fewer than n-1 packets in flight, of whatever pool. */
  lemma SendAccepted(s: Sys, q: nat, h: nat) returns (sent: Sys, rung: Sys)
    requires Inv(s) && s.op == Idle && q < |s.txs| && h in s.pkts && |s.txs[q].ring.inUse| < s.txs[q].ring.n - 1
    ensures NextState(s, Send(q, h)) == Next(sent) && Formed(sent) && Run(sent, [Doorbell], rung) && Formed(rung)
    ensures |rung.txs| == |s.txs| && Accepted(s.txs[q], rung.txs[q], s.pkts[h])
    ensures rung == s.(txs := s.txs[q := rung.txs[q]], pkts := s.pkts - {h})
  {
    CanSendNow(s, q);
    AcceptedStep(s, q, h);
    sent := SendStep(s, q, h).s;
    WrapBelow(s.txs[q].ring.tx, s.txs[q].ring.n);
    WrapRingExact(s.txs[q].ring.n);
    rung := NextState(sent, Doorbell).s;
    RunOne(sent, Doorbell, rung);
  }

  // ---- recycle ----

  /** `recycle_tx_buffers` from its first step on: on a missing queue nothing happens, else a run ends
      in the ring and stack of the call's specification. */
  lemma RecycleCall(s: Sys, q: nat, nic: nat -> seq<T.TxNicStep>) returns (steps: seq<Step>, s': Sys)
    requires Inv(s) && s.op == Idle
    ensures Run(s, [StartRecycle(q)] + steps, s') && Inv(s')
    ensures if q >= |s.txs| then s' == s
            else Recycled(s, q, T.Recycle(s.txs[q].ring, s.txs[q].ring.clean, s.txs[q].pool.Some?, nic, 0), s')
  {
    StartRecycleKeeps(s, q);
    var started := NextState(s, StartRecycle(q)).s;
    RunOne(s, StartRecycle(q), started);
    if q >= |s.txs| {
      steps, s' := [], s;
    } else {
      TxPoolIn(s, q);
      steps, s' := RecycleIsRun(started, nic, 0);
    }
    RunAppend(s, [StartRecycle(q)], started, steps, s');
  }

  /** The pass that finds a batch, by the test it makes: its ids go on top of the stack, in order. */
  lemma BatchStep(s: Sys)
    requires Formed(s) && s.op.Recycling? && T.BatchReady(s.txs[s.op.q].ring, s.op.clean)
    requires s.txs[s.op.q].pool.Some? && HasPool(s, s.op.q)
    ensures RecycleIterStep(s).Next?
    ensures var q, s' := s.op.q, RecycleIterStep(s).s;
      s'.pools == Freed(s, q, T.Drained(s.txs[q].ring, true)) && |s'.txs| == |s.txs|
      && s'.txs[q].ring == T.AfterBatch(s.txs[q].ring, true) && s'.pkts == s.pkts
  {
  }

  lemma TxPoolIn(s: Sys, q: nat)
    requires Inv(s) && q < |s.txs|
    ensures HasPool(s, q)
  {
    assert TxOk(s.txs[q], CleanIndex(s, q), Posted(s, q), |s.pools|);
  }

  // ---- receive ----

  /** `can_receive` says whether a completed frame waits. */
  lemma CanReceiveNow(s: Sys, q: nat)
    requires Inv(s) && s.op == Idle && q < |s.rxs|
    ensures R.CanRecv(s.rxs[q].ring) <==> |s.rxs[q].delivered| < s.rxs[q].written
  {
    var Q := s.rxs[q];
    assert RxOk(Q, Between, s.pools[Q.pool].phys);
    R.CanRecvExact(Q.ring, Q.posted, |Q.delivered|, |Q.delivered| + Q.ring.n, Q.written, |Q.dma|);
  }

  /** The first step of `receive_packets`, by the test it makes. */
  lemma EntryStep(s: Sys, q: nat, budget: nat)
    requires Formed(s) && s.op == Idle
    ensures NextState(s, StartReceive(q, budget)) ==
      if q >= |s.rxs| || !R.CanRecv(s.rxs[q].ring) then Next(s)
      else Next(s.(op := Receiving(q, budget, s.rxs[q].ring.rx, s.rxs[q].ring.rx)))
  {
  }

  /** The first step of `receive_packets`: not ready, and nothing changes, exactly on a missing queue
      and when no completed frame waits; else the loop begins with the whole budget. */
  lemma ReceiveEntry(s: Sys, q: nat, budget: nat)
    requires Inv(s) && s.op == Idle
    ensures NextState(s, StartReceive(q, budget)) ==
      if q >= |s.rxs| || |s.rxs[q].delivered| == s.rxs[q].written then Next(s)
      else Next(s.(op := Receiving(q, budget, s.rxs[q].ring.rx, s.rxs[q].ring.rx)))
  {
    EntryStep(s, q, budget);
    if q < |s.rxs| {
      CanReceiveNow(s, q);
      var Q := s.rxs[q];
      assert RxOk(Q, Between, s.pools[Q.pool].phys);
    }
  }

  /** Client and NIC keep their rules during a call of `receive_packets`. */
  ghost predicate FairCall(Q: RxQueue, hold: Holding, budget: nat, f: R.Closure, nic: nat -> seq<R.RxNicStep>, frames: nat -> Frame)
    requires R.Shape(Q.ring)
  {
    var r := R.NicRun(Q.ring, nic(0));
    Stream(Q, frames, hold.pool.entrySize) && R.Honest(Q.ring, nic(0), frames, Q.written)
    && (R.CanRecv(r) ==>
          R.Lawful(r, hold, budget, r.rx, f, nic, 1)
          && R.HonestCall(r, hold.pool, budget, r.rx, f, nic, 1, frames, R.WrittenAfter(Q.ring, nic(0), Q.written)))
  }

  /** What the call leaves, `r` being the ring at the test of `can_recv`. */
  ghost predicate ReceiveLeaves(s: Sys, q: nat, r: R.RxRing, hold: Holding, budget: nat, f: R.Closure, nic: nat -> seq<R.RxNicStep>,
                                frames: nat -> Frame, s': Sys)
    requires R.Shape(r)
  {
    if R.CanRecv(r) then ReceivedAs(s, q, R.ReceiveLoop(r, hold.pool, budget, r.rx, r.rx, f, nic, 1), frames, s')
    else SameButRxNic(s, s', q) && s'.rxs[q].ring == r && Stream(s'.rxs[q], frames, hold.pool.entrySize)
  }

  /** `receive_packets` from start to end, with the NIC active before each status read, the one of
      `can_recv` included: a run that contains the call with its budget and ends in ring, pool and log
      of the call's specification, or, not ready, with nothing but the NIC's own doing. */
  lemma ReceiveCall(s: Sys, q: nat, hold: Holding, budget: nat, f: R.Closure, nic: nat -> seq<R.RxNicStep>, frames: nat -> Frame)
    returns (before: seq<Step>, after: seq<Step>, s': Sys)
    requires Inv(s) && s.op == Idle && q < |s.rxs| && Has(s, s.rxs[q].pool, hold)
    requires FairCall(s.rxs[q], hold, budget, f, nic, frames)
    ensures Run(s, before + [StartReceive(q, budget)] + after, s') && Inv(s') && s'.op == Idle
    ensures ReceiveLeaves(s, q, R.NicRun(s.rxs[q].ring, nic(0)), hold, budget, f, nic, frames, s')
  {
    var mid;
    before, mid := RxNicIsRun(s, q, nic(0), frames);
    var r := R.NicRun(s.rxs[q].ring, nic(0));
    StartReceiveKeeps(mid, q, budget);
    var started := NextState(mid, StartReceive(q, budget)).s;
    RunThen(s, before, mid, StartReceive(q, budget), started);
    if R.CanRecv(r) {
      CanReceiveNow(mid, q);
      ReceiveEntry(mid, q, budget);
      StillHasAll(s, started, q, r, hold, budget);
      after, s' := ReceiveIsRun(started, q, r, hold, budget, r.rx, r.rx, f, nic, 1, frames);
      JoinStart(s, mid, started, q, R.ReceiveLoop(r, hold.pool, budget, r.rx, r.rx, f, nic, 1), frames, s');
    } else {
      after, s' := [], started;
    }
    RunAppend(s, before + [StartReceive(q, budget)], started, after, s');
  }

  lemma StillHasAll(s: Sys, started: Sys, q: nat, r: R.RxRing, hold: Holding, budget: nat)
    requires q < |s.rxs| == |started.rxs| && Has(s, s.rxs[q].pool, hold) && started.rxs[q].pool == s.rxs[q].pool
    requires started.pools == s.pools && started.pkts == s.pkts && started.detached == s.detached && started.rxs[q].ring == r
    requires started.op == Receiving(q, budget, r.rx, r.rx)
    ensures AtPass(started, q, r, hold, budget, r.rx, r.rx)
  {
    forall id | id in hold.mine ensures ClientHas(started, s.rxs[q].pool, id) {
      assert ClientHas(s, s.rxs[q].pool, id);
    }
  }

  lemma JoinStart(s: Sys, mid: Sys, started: Sys, q: nat, out: Result<R.Received>, frames: nat -> Frame, s': Sys)
    requires SameButRxNic(s, mid, q) && ReceivedAs(started, q, out, frames, s')
    requires started == mid.(op := started.op)
    ensures ReceivedAs(s, q, out, frames, s')
  {
  }

  /** The pass that shows a packet, by the tests it makes: the packet starts at its entry, the top of
      the stack takes its place in the slot. */
  lemma ShowStep(s: Sys, h: nat)
    requires Formed(s) && s.op.Receiving? && s.op.budget > 0 && h !in s.pkts
    requires var Q := s.rxs[s.op.q];
      var d, p := Q.ring.descs[s.op.rx], s.pools[Q.pool];
      d.done && d.eop && p.free != [] && Q.ring.inUse[s.op.rx] < |p.phys|
    ensures ReceiveIterStep(s, h).Next?
    ensures var s', Q, rx := ReceiveIterStep(s, h).s, s.rxs[s.op.q], s.op.rx;
      var p, id := s.pools[Q.pool], Q.ring.inUse[rx];
      h in s'.pkts && s'.pkts[h].pool == Q.pool && s'.pkts[h].entry == id && s'.pkts[h].addr == p.phys[id]
      && s'.pkts[h].data == ReadMem(s.mem, p.phys[id], R.SeenLength(Q.ring.descs[rx]))
      && |s'.rxs| == |s.rxs| && s'.rxs[s.op.q].ring == R.Take(Q.ring, rx, p.free[|p.free| - 1])
      && |s'.pools| == |s.pools| && s'.pools[Q.pool].free == p.free[..|p.free| - 1]
      && s'.op == InCallback(s.op.q, s.op.budget - 1, rx, s.op.last)
  {
  }

  /** With budget, a waiting frame and a free entry, the closure is shown the oldest waiting frame, cut
      to fifteen bits of length, in a packet at the start of its entry. */
  lemma ShowAnswer(s: Sys, h: nat)
    requires Inv(s) && s.op.Receiving? && s.op.budget > 0 && h !in s.pkts
    requires var Q := s.rxs[s.op.q]; |Q.delivered| < Q.written && s.pools[Q.pool].free != []
    ensures ReceiveIterStep(s, h).Next?
    ensures var s', Q := ReceiveIterStep(s, h).s, s.rxs[s.op.q];
      h in s'.pkts && |Q.delivered| < |Q.dma| && s'.pkts[h].data == RxCut(Q.dma[|Q.delivered|])
      && s'.pkts[h].addr == EntryBase(s, Buf(Q.pool, s'.pkts[h].entry)) && InPools(s, Buf(Q.pool, s'.pkts[h].entry))
  {
    var q, Q := s.op.q, s.rxs[s.op.q];
    assert RxOk(Q, AtLoop(s.op.rx, s.op.last), s.pools[Q.pool].phys);
    QueueSteps.SeenDone(Q, s.op.rx, s.op.last, s.pools[Q.pool].phys);
    PendingHolds(s, q, |Q.delivered|);
    DeliveredData(s);
    ShowStep(s, h);
  }
}
