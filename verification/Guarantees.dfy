/** What holds after every run from a good state: the driver's promises to its client. */
module Guarantees {
  import opened Results
  import opened RingIndex
  import opened Buffers
  import opened System
  import opened Invariant
  import opened QueueSteps
  import opened Preservation
  import T = Transmit
  import R = Receive

  // ---- history ----

  /** Logs only grow; pools keep their entries, queues their size and pool. */
  ghost predicate Grows(s: Sys, s': Sys) {
    SamePools(s, s') && |s'.txs| == |s.txs| && |s'.rxs| == |s.rxs|
    && (forall q :: 0 <= q < |s.txs| ==>
          s'.txs[q].ring.n == s.txs[q].ring.n && s.txs[q].sent <= s'.txs[q].sent
          && s.txs[q].wire <= s'.txs[q].wire && s.txs[q].written <= s'.txs[q].written)
    && (forall q :: 0 <= q < |s.rxs| ==>
          s'.rxs[q].ring.n == s.rxs[q].ring.n && s'.rxs[q].pool == s.rxs[q].pool
          && s.rxs[q].dma <= s'.rxs[q].dma && s.rxs[q].delivered <= s'.rxs[q].delivered)
  }

  lemma StepGrows(s: Sys, step: Step)
    requires Formed(s) && NextState(s, step).Next?
    ensures Grows(s, NextState(s, step).s)
  {
    match step
    case Send(q, h) => SendGrows(s, q, h);
    case RecycleIter => RecycleIterGrows(s);
    case ReceiveIter(h) => ReceiveIterGrows(s, h);
    case _ => if IsNicStep(step) { NicStepGrows(s, step); } else { OtherStepGrows(s, step); }
  }

  predicate IsNicStep(step: Step) {
    step.TxFetch? || step.TxWriteBack? || step.RxFill? || step.RxWriteBack?
  }

  /** Steps of the client, and those of the driver that only note where it is or write a register
      or a descriptor. */
  predicate IsOtherStep(step: Step) {
    !IsNicStep(step) && !step.Send? && !step.RecycleIter? && !step.ReceiveIter?
  }

  lemma OtherStepGrows(s: Sys, step: Step)
    requires Formed(s) && IsOtherStep(step) && NextState(s, step).Next?
    ensures Grows(s, NextState(s, step).s)
  {
    if step.Doorbell? || step.StartRecycle? || step.StartReceive? || step.CallbackReturn? {
      DriverStepGrows(s, step);
    }
  }

  lemma DriverStepGrows(s: Sys, step: Step)
    requires Formed(s) && NextState(s, step).Next?
    requires step.Doorbell? || step.StartRecycle? || step.StartReceive? || step.CallbackReturn?
    ensures Grows(s, NextState(s, step).s)
  {
  }

  lemma NicStepGrows(s: Sys, step: Step)
    requires Formed(s) && IsNicStep(step) && NextState(s, step).Next?
    ensures Grows(s, NextState(s, step).s)
  {
  }

  lemma SendGrows(s: Sys, q: nat, h: nat)
    requires Formed(s) && SendStep(s, q, h).Next?
    ensures Grows(s, SendStep(s, q, h).s)
  {
  }

  lemma RecycleIterGrows(s: Sys)
    requires Formed(s) && s.op.Recycling? && RecycleIterStep(s).Next?
    ensures Grows(s, RecycleIterStep(s).s)
  {
  }

  lemma ReceiveIterGrows(s: Sys, h: nat)
    requires Formed(s) && s.op.Receiving? && ReceiveIterStep(s, h).Next?
    ensures Grows(s, ReceiveIterStep(s, h).s)
  {
  }

  lemma {:induction false} RunGrows(s: Sys, steps: seq<Step>, s': Sys)
    requires Run(s, steps, s')
    ensures Grows(s, s')
    decreases |steps|
  {
    if steps != [] {
      StepGrows(s, steps[0]);
      RunGrows(NextState(s, steps[0]).s, steps[1..], s');
    }
  }

  // ---- buffers ----

  /** Exactly one place holds the buffer. */
  ghost predicate OwnedOnce(s: Sys, b: Buf) {
    exists l :: ValidLoc(s, l) && BufAt(s, l) == b && forall l' :: ValidLoc(s, l') && BufAt(s, l') == b ==> l' == l
  }

  /** After every run, each entry of each pool is in exactly one place: the free stack, one
      receive slot, one transmit queue's ids in flight, one client packet, or detached; and no
      place holds anything else. */
  lemma BufferConservation(s: Sys, steps: seq<Step>, s': Sys)
    requires Inv(s) && Run(s, steps, s')
    ensures SamePools(s, s')
    ensures forall b :: InPools(s', b) ==> OwnedOnce(s', b)
    ensures forall l :: ValidLoc(s', l) ==> InPools(s', BufAt(s', l))
  {
    RunKeeps(s, steps, s');
    RunGrows(s, steps, s');
    forall b | InPools(s', b) ensures OwnedOnce(s', b) {
      var l :| ValidLoc(s', l) && BufAt(s', l) == b;
      forall l' | ValidLoc(s', l') && BufAt(s', l') == b ensures l' == l {
      }
    }
  }

  /** No allowed step after any run fails an assertion, frees twice or indexes out of range. */
  lemma NoPanic(s: Sys, steps: seq<Step>, s': Sys, step: Step)
    requires Inv(s) && Run(s, steps, s')
    ensures Formed(s') && (Allowed(s', step) ==> !NextState(s', step).Panicked?)
  {
    RunKeeps(s, steps, s');
    if Allowed(s', step) {
      StepKeeps(s', step);
    }
  }

  // ---- transmit ----

  /** The wire carries a prefix of the packets accepted by `send`, each once and in order, with
      the bytes each had when sent, cut to its length modulo 2^16; no more than n-1 are ever in
      flight. A packet goes out whole exactly when it is shorter than 2^16 bytes. */
  lemma TransmitFifo(s: Sys, steps: seq<Step>, s': Sys, q: nat)
    requires Inv(s) && Run(s, steps, s') && q < |s.txs|
    ensures q < |s'.txs| && s.txs[q].sent <= s'.txs[q].sent && s.txs[q].wire <= s'.txs[q].wire
    ensures var Q := s'.txs[q];
      |Q.wire| <= |Q.sent| && |Q.ring.inUse| <= Q.ring.n - 1
      && forall c :: 0 <= c < |Q.wire| ==>
           Q.wire[c] == TxCut(Q.sent[c]) && (Q.wire[c] == Q.sent[c] <==> |Q.sent[c]| < 0x1_0000)
  {
    RunKeeps(s, steps, s');
    RunGrows(s, steps, s');
    var Q := s'.txs[q];
    assert TxOk(Q, CleanIndex(s', q), Posted(s', q), |s'.pools|);
    forall c | 0 <= c < |Q.wire| ensures Q.wire[c] == Q.sent[c] <==> |Q.sent[c]| < 0x1_0000 {
      CutWhole(Q.sent[c], 0x1_0000);
    }
  }

  lemma CutWhole(f: Frame, m: nat)
    requires m > 0
    ensures f[..|f| % m] == f <==> |f| < m
  {
    if f[..|f| % m] == f {
      assert |f[..|f| % m]| == |f| % m;
    }
  }

  /** Between calls: the ids in flight are as many as the clean index lags behind, the queue has
      a pool while there are any, and Done is set exactly from the clean index to the NIC's
      write-back index. */
  lemma TxCoupling(s: Sys, q: nat)
    requires Inv(s) && q < |s.txs| && s.op == Idle
    ensures var Q, r := s.txs[q], s.txs[q].ring;
      |r.inUse| == (if r.tx >= r.clean then r.tx - r.clean else r.tx + r.n - r.clean)
      && (r.inUse != [] ==> Q.pool.Some?)
      && (forall i: nat :: i < r.n && InRing(i, r.clean, r.tx) ==> (r.descs[i].done <==> InRing(i, r.clean, r.wb)))
  {
    var Q, r, k := s.txs[q], s.txs[q].ring, Cleaned(s.txs[q]);
    T.CleanableIsInFlight(r, r.clean, k, Q.written, |Q.wire|, |Q.sent|, |Q.sent|);
    T.CleanableIsDistance(r, r.clean);
    forall i: nat | i < r.n && InRing(i, r.clean, r.tx) ensures r.descs[i].done <==> InRing(i, r.clean, r.wb) {
      DoneInRing(r, k, Q.written, |Q.wire|, |Q.sent|, i);
    }
  }

  /** The `j`-th id in flight backs the `j`-th slot after the clean index: until the NIC has
      written it back, that descriptor points into the entry of that id and spans the frame. */
  lemma FlightBacksSlot(s: Sys, q: nat, j: nat)
    requires Inv(s) && q < |s.txs| && s.op == Idle && j < |s.txs[q].ring.inUse|
    requires Cleaned(s.txs[q]) + j >= s.txs[q].written
    ensures var Q, c := s.txs[q], Cleaned(s.txs[q]) + j;
      var d := Q.ring.descs[(Q.ring.clean + j) % Q.ring.n];
      Q.pool.Some? && InEntry(s, Buf(Q.pool.value, Q.ring.inUse[j]), d.addr, d.len)
      && ReadMem(s.mem, d.addr, d.len) == TxCut(Q.sent[c])
  {
    FlightHolds(s, q, Cleaned(s.txs[q]) + j);
    ModShift(Cleaned(s.txs[q]), j, s.txs[q].ring.n);
  }

  lemma DoneInRing(r: T.TxRing, k: int, w: int, h: int, s: int, i: nat)
    requires T.Window(r, k, w, h, s, s) && r.clean == k % r.n && i < r.n && InRing(i, r.clean, r.tx)
    ensures r.descs[i].done <==> InRing(i, r.clean, r.wb)
  {
    var c := InRingCounter(i, k, s, r.n);
    var c' := InRingCounter(i, k, w, r.n);
    if c <= c' { ModInjective(c, c', r.n); } else { ModInjective(c', c, r.n); }
    assert r.descs[i] == T.At(r, c);
  }

  /** Whenever recycling frees a batch, it is the 32 oldest ids in flight, and all 32 packets
      are on the wire and written back. */
  lemma NoEarlyReclaim(s: Sys, s': Sys)
    requires Inv(s) && s.op.Recycling? && T.BatchReady(s.txs[s.op.q].ring, s.op.clean)
    requires NextState(s, RecycleIter) == Next(s')
    ensures |s'.txs| == |s.txs| && |s'.pools| == |s.pools|
    ensures var Q, k := s.txs[s.op.q], Cleaned(s.txs[s.op.q]);
      Q.pool.Some? && Q.pool.value < |s.pools| && |Q.ring.inUse| >= 32
      && s'.txs[s.op.q].ring.inUse == Q.ring.inUse[32..]
      && s'.pools[Q.pool.value].free == s.pools[Q.pool.value].free + Q.ring.inUse[..32]
      && k + 32 <= Q.written <= |Q.wire| && forall c :: k <= c < k + 32 ==> TxAt(Q, c).done
  {
    BatchOk(s.txs[s.op.q], s.op.clean, Posted(s, s.op.q), |s.pools|);
  }

  /** Freeing a batch behind the pool's back is what 32 calls of `free_buf` would have done. */
  lemma BatchIsFreeBuf(s: Sys, s': Sys)
    requires Inv(s) && s.op.Recycling? && T.BatchReady(s.txs[s.op.q].ring, s.op.clean)
    requires NextState(s, RecycleIter) == Next(s')
    ensures var Q := s.txs[s.op.q];
      |Q.ring.inUse| >= 32 && Q.pool.Some? && Q.pool.value < |s.pools| == |s'.pools|
      && PushAll(s.pools[Q.pool.value], Q.ring.inUse[..32]) == Ok(s'.pools[Q.pool.value])
  {
    NoEarlyReclaim(s, s');
    var Q := s.txs[s.op.q];
    FlightIds(s, s.op.q);
    ExtendIsPushAll(s.pools[Q.pool.value], Q.ring.inUse[..32]);
  }

  /** Ids in flight on one queue are distinct entries of its pool and not free. */
  lemma FlightIds(s: Sys, q: nat)
    requires Inv(s) && q < |s.txs| && s.txs[q].pool.Some?
    ensures var Q := s.txs[q];
      Q.pool.value < |s.pools| && Distinct(Q.ring.inUse)
      && forall i :: 0 <= i < |Q.ring.inUse| ==>
           Q.ring.inUse[i] < |s.pools[Q.pool.value].phys| && Q.ring.inUse[i] !in s.pools[Q.pool.value].free
  {
    var Q, k := s.txs[q], Cleaned(s.txs[q]);
    var p := Q.pool.value;
    forall i | 0 <= i < |Q.ring.inUse|
      ensures Q.ring.inUse[i] < |s.pools[p].phys| && Q.ring.inUse[i] !in s.pools[p].free
    {
      var l := TxFlight(q, k + i);
      assert ValidLoc(s, l) && BufAt(s, l) == Buf(p, Q.ring.inUse[i]) && InPools(s, BufAt(s, l));
      forall f | 0 <= f < |s.pools[p].free| ensures s.pools[p].free[f] != Q.ring.inUse[i] {
        assert ValidLoc(s, Free(p, f)) && Free(p, f) != l;
      }
    }
    forall i, j | 0 <= i < j < |Q.ring.inUse| ensures Q.ring.inUse[i] != Q.ring.inUse[j] {
      var l, l' := TxFlight(q, k + i), TxFlight(q, k + j);
      assert ValidLoc(s, l) && ValidLoc(s, l') && l != l';
      assert BufAt(s, l) == Buf(p, Q.ring.inUse[i]) && BufAt(s, l') == Buf(p, Q.ring.inUse[j]);
    }
  }

  /** Transmit queues of at most 32 slots have had nothing recycled. */
  ghost predicate NothingRecycled(s: Sys) {
    forall q :: 0 <= q < |s.txs| && s.txs[q].ring.n <= 32 ==>
      |s.txs[q].ring.inUse| == |s.txs[q].sent| && s.txs[q].ring.clean == 0 && CleanIndex(s, q) == 0
  }

  lemma StepRecyclesNothing(s: Sys, step: Step)
    requires Inv(s) && NothingRecycled(s) && NextState(s, step).Next?
    ensures NothingRecycled(NextState(s, step).s)
  {
    match step
    case Send(q, h) => SendRecyclesNothing(s, q, h);
    case RecycleIter =>
      if s.txs[s.op.q].ring.n <= 32 { T.SmallRingNeverReady(s.txs[s.op.q].ring, s.op.clean); }
      IterRecyclesNothing(s);
    case ReceiveIter(h) => assert ReceiveIterStep(s, h).s.txs == s.txs;
    case _ => if IsNicStep(step) { NicStepRecyclesNothing(s, step); } else { OtherStepRecyclesNothing(s, step); }
  }

  lemma OtherStepRecyclesNothing(s: Sys, step: Step)
    requires Formed(s) && NothingRecycled(s) && IsOtherStep(step) && NextState(s, step).Next?
    ensures NothingRecycled(NextState(s, step).s)
  {
  }

  lemma NicStepRecyclesNothing(s: Sys, step: Step)
    requires Formed(s) && NothingRecycled(s) && IsNicStep(step) && NextState(s, step).Next?
    ensures NothingRecycled(NextState(s, step).s)
  {
  }

  lemma SendRecyclesNothing(s: Sys, q: nat, h: nat)
    requires Formed(s) && NothingRecycled(s) && SendStep(s, q, h).Next?
    ensures NothingRecycled(SendStep(s, q, h).s)
  {
  }

  lemma IterRecyclesNothing(s: Sys)
    requires Formed(s) && NothingRecycled(s) && s.op.Recycling? && RecycleIterStep(s).Next?
    requires s.txs[s.op.q].ring.n <= 32 ==> !T.BatchReady(s.txs[s.op.q].ring, s.op.clean)
    ensures NothingRecycled(RecycleIterStep(s).s)
  {
  }

  /** On a ring of at most 32 slots the clean index never moves in any run, so a queue that has
      accepted n-1 packets is full for good, whatever the NIC completes. */
  lemma {:induction false} SmallRingStarves(s: Sys, steps: seq<Step>, s': Sys, q: nat)
    requires Inv(s) && NothingRecycled(s) && Run(s, steps, s') && q < |s.txs| && s.txs[q].ring.n <= 32
    ensures |s'.txs| == |s.txs| && T.Shape(s'.txs[q].ring)
    ensures s'.txs[q].ring.clean == 0 && |s'.txs[q].sent| <= s.txs[q].ring.n - 1
    ensures s'.op == Idle ==> (T.CanSend(s'.txs[q].ring) <==> |s'.txs[q].sent| < s.txs[q].ring.n - 1)
    decreases |steps|
  {
    if steps == [] {
      var Q := s.txs[q];
      assert TxOk(Q, CleanIndex(s, q), Posted(s, q), |s.pools|);
      T.CanSendExact(Q.ring, Cleaned(Q), Q.written, |Q.wire|, Posted(s, q), |Q.sent|);
    } else {
      StepKeeps(s, steps[0]);
      StepGrows(s, steps[0]);
      StepRecyclesNothing(s, steps[0]);
      SmallRingStarves(NextState(s, steps[0]).s, steps[1..], s', q);
    }
  }

  // ---- receive ----

  /** The frames handed to the closure are, in order and each once, a prefix of the frames the
      NIC placed in buffers, with their bytes, cut to their length modulo 2^15. A frame arrives
      whole exactly when it is shorter than 2^15 bytes. */
  lemma ReceiveFifo(s: Sys, steps: seq<Step>, s': Sys, q: nat)
    requires Inv(s) && Run(s, steps, s') && q < |s.rxs|
    ensures q < |s'.rxs| && s.rxs[q].dma <= s'.rxs[q].dma && s.rxs[q].delivered <= s'.rxs[q].delivered
    ensures var Q := s'.rxs[q];
      |Q.delivered| <= |Q.dma|
      && forall c :: 0 <= c < |Q.delivered| ==>
           Q.delivered[c] == RxCut(Q.dma[c]) && (Q.delivered[c] == Q.dma[c] <==> |Q.dma[c]| < 0x8000)
  {
    RunKeeps(s, steps, s');
    RunGrows(s, steps, s');
    var Q := s'.rxs[q];
    assert RxOk(Q, PhaseOf(s'.op, q), s'.pools[Q.pool].phys);
    forall c | 0 <= c < |Q.delivered| ensures Q.delivered[c] == Q.dma[c] <==> |Q.dma[c]| < 0x8000 {
      CutWhole(Q.dma[c], 0x8000);
    }
  }

  /** Steps by which the owner itself changes packet `h` or gives it away. */
  predicate Touches(step: Step, h: nat) {
    match step
    case Write(h', _) => h' == h
    case Drop(h') => h' == h
    case Detach(h') => h' == h
    case Send(_, h') => h' == h
    case _ => false
  }

  lemma StepSparesPacket(s: Sys, step: Step, h: nat)
    requires Formed(s) && h in s.pkts && !Touches(step, h) && NextState(s, step).Next?
    ensures h in NextState(s, step).s.pkts && NextState(s, step).s.pkts[h] == s.pkts[h]
  {
  }

  /** A packet in the client's hands keeps its bytes until the client itself touches it: no
      later DMA, send, recycle or other packet's write reaches them. */
  lemma {:induction false} PacketsUndisturbed(s: Sys, steps: seq<Step>, s': Sys, h: nat)
    requires Inv(s) && Run(s, steps, s') && h in s.pkts
    requires forall i :: 0 <= i < |steps| ==> !Touches(steps[i], h)
    ensures h in s'.pkts && s'.pkts[h] == s.pkts[h]
    ensures ReadMem(s'.mem, s'.pkts[h].addr, |s.pkts[h].data|) == s.pkts[h].data
    decreases |steps|
  {
    if steps == [] {
      assert ValidLoc(s, Client(h)) && Holds(s, Client(h));
    } else {
      StepKeeps(s, steps[0]);
      StepSparesPacket(s, steps[0], h);
      PacketsUndisturbed(NextState(s, steps[0]).s, steps[1..], s', h);
    }
  }

  /** Between calls on a receive queue: RDT is one slot behind the receive index; Done is set
      exactly from the receive index to the NIC's write-back index; every other slot holds the
      address of its buffer; the NIC owns no slot with an undelivered frame. */
  lemma RxWindow(s: Sys, q: nat)
    requires Inv(s) && q < |s.rxs| && PhaseOf(s.op, q) == Between
    ensures var r, phys := s.rxs[q].ring, s.pools[s.rxs[q].pool].phys;
      r.tail == (r.rx + r.n - 1) % r.n
      && forall i: nat :: i < r.n ==>
           (r.descs[i].done <==> InRing(i, r.rx, r.wb))
           && (!r.descs[i].done ==> r.inUse[i] < |phys| && r.descs[i].addr == phys[r.inUse[i]])
           && (InRing(i, r.head, r.tail) ==> !r.descs[i].done)
  {
    var Q, r := s.rxs[q], s.rxs[q].ring;
    var d, n, phys := |Q.delivered|, r.n, s.pools[Q.pool].phys;
    assert RxOk(Q, Between, phys);
    ModShift(d, n - 1, n);
    forall i: nat | i < n
      ensures (r.descs[i].done <==> InRing(i, r.rx, r.wb))
              && (!r.descs[i].done ==> r.inUse[i] < |phys| && r.descs[i].addr == phys[r.inUse[i]])
              && (InRing(i, r.head, r.tail) ==> !r.descs[i].done)
    {
      RxSlotState(Q, phys, i);
    }
  }

  lemma RxSlotState(Q: RxQueue, phys: seq<nat>, i: nat)
    requires RxOk(Q, Between, phys) && i < Q.ring.n
    ensures var r := Q.ring;
      (r.descs[i].done <==> InRing(i, r.rx, r.wb))
      && (!r.descs[i].done ==> r.inUse[i] < |phys| && r.descs[i].addr == phys[r.inUse[i]])
      && (InRing(i, r.head, r.tail) ==> !r.descs[i].done)
  {
    var r, d, n := Q.ring, |Q.delivered|, Q.ring.n;
    var c := InRingCounter(i, d, Q.written, n);
    assert r.descs[i] == RxAt(Q, c) && r.inUse[i] == RxBuf(Q, c);
    var c' := InRingCounter(i, |Q.dma|, Q.posted + n - 1, n);
    if InRing(i, r.head, r.tail) {
      if c <= c' { ModInjective(c, c', n); } else { ModInjective(c', c, n); }
    }
  }
}
