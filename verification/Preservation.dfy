/** Every allowed step keeps the invariant and none of them panics. */
module Preservation {
  import opened Results
  import opened RingIndex
  import opened Buffers
  import opened System
  import opened Invariant
  import opened QueueSteps
  import T = Transmit
  import R = Receive

  lemma FreeIdsInPool(s: Sys, p: nat, i: nat)
    requires Conserved(s) && p < |s.pools| && i < |s.pools[p].free|
    ensures s.pools[p].free[i] < |s.pools[p].phys|
  {
    assert ValidLoc(s, Free(p, i)) && InPools(s, BufAt(s, Free(p, i)));
  }

  lemma ClientInPool(s: Sys, h: nat)
    requires Conserved(s) && h in s.pkts
    ensures InPools(s, Buf(s.pkts[h].pool, s.pkts[h].entry))
    ensures s.pkts[h].entry !in s.pools[s.pkts[h].pool].free
  {
    var p := s.pkts[h];
    assert ValidLoc(s, Client(h)) && InPools(s, BufAt(s, Client(h)));
    forall i | 0 <= i < |s.pools[p.pool].free| ensures s.pools[p.pool].free[i] != p.entry {
      assert ValidLoc(s, Free(p.pool, i)) && Client(h) != Free(p.pool, i);
    }
  }

  // ---- the client ----

  /** Steps of the client leave the queues alone. */
  lemma ClientStep(s: Sys, s': Sys)
    requires GoodPools(s.pools) && Queues(s) && SamePools(s, s')
    requires s'.rxs == s.rxs && s'.txs == s.txs && s'.op == s.op
    ensures GoodPools(s'.pools) && Queues(s')
  {
  }

  lemma AllocKeeps(s: Sys, p: nat, size: nat, h: nat)
    requires Inv(s)
    ensures !AllocStep(s, p, size, h).Panicked?
    ensures AllocStep(s, p, size, h).Next? ==> Inv(AllocStep(s, p, size, h).s)
  {
    if p < |s.pools| && h !in s.pkts && AllocFits(s.pools[p].entrySize, size) && s.pools[p].free != [] {
      var top := |s.pools[p].free| - 1;
      FreeIdsInPool(s, p, top);
      var s' := AllocStep(s, p, size, h).s;
      ClientStep(s, s');
      AllocOwned(s, p, size, h);
    }
  }

  lemma AllocOwned(s: Sys, p: nat, size: nat, h: nat)
    requires Owned(s) && AllocStep(s, p, size, h).Next?
    requires p < |s.pools| ==> s.pools[p].entrySize >= HEADROOM
    ensures Owned(AllocStep(s, p, size, h).s)
  {
    var s' := AllocStep(s, p, size, h).s;
    if s' != s {
      var top := |s.pools[p].free| - 1;
      assert Holds(s', Client(h));
      forall l | l != Free(p, top) && l != Client(h) ensures Stays(s, s', l) {
      }
      OneMove(s, s', Free(p, top), Client(h));
    }
  }

  lemma DropKeeps(s: Sys, h: nat)
    requires Inv(s) && h in s.pkts
    ensures DropPacket(s, h).Next? && Inv(DropPacket(s, h).s)
  {
    ClientInPool(s, h);
    ClientStep(s, DropPacket(s, h).s);
    DropOwned(s, h);
  }

  lemma DropOwned(s: Sys, h: nat)
    requires Owned(s) && h in s.pkts && DropPacket(s, h).Next?
    ensures Owned(DropPacket(s, h).s)
  {
    var s' := DropPacket(s, h).s;
    var p := s.pkts[h].pool;
    var place := Free(p, |s.pools[p].free|);
    forall l | l != Client(h) && l != place ensures Stays(s, s', l) {
    }
    OneMove(s, s', Client(h), place);
  }

  lemma DetachKeeps(s: Sys, h: nat)
    requires Inv(s) && h in s.pkts
    ensures Inv(NextState(s, Detach(h)).s)
  {
    ClientStep(s, NextState(s, Detach(h)).s);
    DetachOwned(s, h);
  }

  lemma DetachOwned(s: Sys, h: nat)
    requires Owned(s) && Formed(s) && h in s.pkts
    ensures Owned(NextState(s, Detach(h)).s)
  {
    var s' := NextState(s, Detach(h)).s;
    var b := Buf(s.pkts[h].pool, s.pkts[h].entry);
    var place := Detached(b);
    assert !ValidLoc(s, place) by {
      assert ValidLoc(s, Client(h)) && BufAt(s, Client(h)) == b;
      assert ValidLoc(s, place) ==> BufAt(s, place) == b;
    }
    forall l | l != Client(h) && l != place ensures Stays(s, s', l) {
    }
    OneMove(s, s', Client(h), place);
  }

  lemma ConstructKeeps(s: Sys, p: nat, id: nat, len: nat, h: nat)
    requires Inv(s) && Allowed(s, Construct(p, id, len, h))
    ensures !ConstructStep(s, p, id, len, h).Panicked?
    ensures ConstructStep(s, p, id, len, h).Next? ==> Inv(ConstructStep(s, p, id, len, h).s)
  {
    assert ValidLoc(s, Detached(Buf(p, id))) && InPools(s, BufAt(s, Detached(Buf(p, id))));
    if h !in s.pkts {
      ClientStep(s, ConstructStep(s, p, id, len, h).s);
      ConstructOwned(s, p, id, len, h);
    }
  }

  lemma ConstructOwned(s: Sys, p: nat, id: nat, len: nat, h: nat)
    requires Owned(s) && InPools(s, Buf(p, id)) && Buf(p, id) in s.detached && h !in s.pkts
    requires HEADROOM + len <= s.pools[p].entrySize
    ensures Owned(ConstructStep(s, p, id, len, h).s)
  {
    var s', place := ConstructStep(s, p, id, len, h).s, Detached(Buf(p, id));
    assert Holds(s', Client(h));
    forall l | l != Client(h) && l != place ensures Stays(s, s', l) {
    }
    OneMove(s, s', place, Client(h));
  }

  lemma WriteKeeps(s: Sys, h: nat, data: Frame)
    requires Inv(s) && NextState(s, Write(h, data)).Next?
    ensures Inv(NextState(s, Write(h, data)).s)
  {
    var s' := NextState(s, Write(h, data)).s;
    ClientStep(s, s');
    WriteOwned(s, s', h, data);
  }

  lemma WriteOwned(s: Sys, s': Sys, h: nat, data: Frame)
    requires GoodPools(s.pools) && Owned(s) && h in s.pkts && |data| == |s.pkts[h].data|
    requires s' == s.(mem := WriteMem(s.mem, s.pkts[h].addr, data), pkts := s.pkts[h := s.pkts[h].(data := data)])
    ensures Owned(s')
  {
    assert ValidLoc(s, Client(h)) && Holds(s, Client(h));
    forall l | l != Client(h) ensures KeepsBytes(s, s', l) {
    }
    ReadBack(s.mem, s.pkts[h].addr, data);
    MemoryWritten(s, s', Client(h), s.pkts[h].addr, data);
  }

  // ---- transmit ----

  /** A step on transmit queue `q` that no receive queue notices. */
  lemma TxStep(s: Sys, s': Sys, q: nat)
    requires Queues(s) && SamePools(s, s') && s'.rxs == s.rxs && q < |s.txs| == |s'.txs|
    requires s'.op in {Idle, s.op} || (s'.op.Recycling? && s'.op.q == q && s'.op.clean < s'.txs[q].ring.n) || s'.op == Sending(q)
    requires (!s.op.Receiving? && !s.op.InCallback?) || s'.op == s.op
    requires s.op in {Idle, s'.op} || s.op.q == q
    requires forall q' :: 0 <= q' < |s.txs| && q' != q ==> s'.txs[q'] == s.txs[q']
    requires TxOk(s'.txs[q], CleanIndex(s', q), Posted(s', q), |s.pools|) && TxArmed(s'.txs[q])
    requires s'.txs[q].ring.n == s.txs[q].ring.n
    ensures Queues(s')
  {
    forall q' | 0 <= q' < |s.txs| && q' != q
      ensures CleanIndex(s', q') == CleanIndex(s, q') && Posted(s', q') == Posted(s, q')
    {
    }
    forall q' | 0 <= q' < |s.rxs| ensures PhaseOf(s'.op, q') == PhaseOf(s.op, q') {
    }
  }

  /** Nothing but transmit queue `q` and the driver's position differ. */
  ghost predicate OnlyTx(s: Sys, s': Sys, q: nat) {
    s'.pools == s.pools && s'.rxs == s.rxs && s'.pkts == s.pkts && s'.detached == s.detached && s'.mem == s.mem
    && q < |s.txs| == |s'.txs|
    && (forall q' :: 0 <= q' < |s.txs| && q' != q ==> s'.txs[q'] == s.txs[q'])
  }

  lemma TxNoMove(s: Sys, s': Sys, q: nat)
    requires Owned(s) && OnlyTx(s, s', q)
    requires var Q, Q' := s.txs[q], s'.txs[q];
      1 <= Q.ring.n == Q'.ring.n == |Q.ring.descs| == |Q'.ring.descs|
      && Q'.ring.inUse == Q.ring.inUse && Q'.sent == Q.sent && Q'.pool == Q.pool && Q.written <= Q'.written
      && forall c :: Q'.written <= c < |Q.sent| ==> TxAt(Q', c).addr == TxAt(Q, c).addr
    ensures Owned(s')
  {
    forall l ensures Stays(s, s', l) {
      if l.TxFlight? && l.q == q && ValidLoc(s, l) {
        assert Becomes(s, l, s', l);
      }
    }
    NoMove(s, s');
  }

  lemma SendKeeps(s: Sys, q: nat, h: nat)
    requires Inv(s) && Allowed(s, Send(q, h))
    ensures !SendStep(s, q, h).Panicked?
    ensures SendStep(s, q, h).Next? ==> Inv(SendStep(s, q, h).s)
  {
    if s.op == Idle && h in s.pkts {
      if q >= |s.txs| || !T.CanSend(s.txs[q].ring) {
        DropKeeps(s, h);
      } else {
        var s' := SendStep(s, q, h).s;
        ClientInPool(s, h);
        PostOk(s.txs[q], s.txs[q].ring.clean, |s.pools|, s.pkts[h]);
        TxStep(s, s', q);
        SendOwned(s, s', q, h);
      }
    }
  }

  lemma SendOwned(s: Sys, s': Sys, q: nat, h: nat)
    requires Owned(s) && h in s.pkts && q < |s.txs| == |s'.txs|
    requires s'.pools == s.pools && s'.rxs == s.rxs && s'.pkts == s.pkts - {h} && s'.detached == s.detached && s'.mem == s.mem
    requires forall q' :: 0 <= q' < |s.txs| && q' != q ==> s'.txs[q'] == s.txs[q']
    requires var Q, Q', p := s.txs[q], s'.txs[q], s.pkts[h];
      1 <= Q.ring.n == Q'.ring.n == |Q.ring.descs| == |Q'.ring.descs| && |Q.ring.inUse| <= |Q.sent|
      && Q'.ring.inUse == Q.ring.inUse + [p.entry] && Q'.sent == Q.sent + [p.data] && Q'.written == Q.written
      && (Q.ring.inUse == [] || Q.pool == Some(p.pool)) && Q'.pool == Some(p.pool)
      && TxAt(Q', |Q.sent|).addr == p.addr
      && forall c :: Cleaned(Q) <= c < |Q.sent| ==> TxAt(Q', c) == TxAt(Q, c)
    ensures Owned(s')
  {
    var place := TxFlight(q, |s.txs[q].sent|);
    assert Becomes(s, Client(h), s', place);
    forall l | l != Client(h) && l != place ensures Stays(s, s', l) {
      if l.TxFlight? && l.q == q && ValidLoc(s, l) {
        assert Becomes(s, l, s', l);
      }
    }
    OneMove(s, s', Client(h), place);
  }

  lemma DoorbellKeeps(s: Sys)
    requires Inv(s) && s.op.Sending?
    ensures Inv(NextState(s, Doorbell).s)
  {
    var s', q := NextState(s, Doorbell).s, s.op.q;
    DoorbellOk(s.txs[q], CleanIndex(s, q), Posted(s, q), |s.pools|);
    TxStep(s, s', q);
    TxNoMove(s, s', q);
  }

  lemma StartRecycleKeeps(s: Sys, q: nat)
    requires Inv(s) && s.op == Idle
    ensures Inv(NextState(s, StartRecycle(q)).s)
  {
    var s' := NextState(s, StartRecycle(q)).s;
    if q < |s.txs| {
      TxStep(s, s', q);
      TxNoMove(s, s', q);
    }
  }

  lemma RecycleIterKeeps(s: Sys)
    requires Inv(s) && s.op.Recycling?
    ensures RecycleIterStep(s).Next? && Inv(RecycleIterStep(s).s)
  {
    var q, clean := s.op.q, s.op.clean;
    var Q := s.txs[q];
    var s' := RecycleIterStep(s).s;
    if T.BatchReady(Q.ring, clean) {
      BatchOk(Q, clean, Posted(s, q), |s.pools|);
      T.BatchAdvances(Q.ring, clean, true);
      TxStep(s, s', q);
      assert Recycles(s, s', q, Q.pool.value);
      BatchOwned(s, s', q, Q.pool.value);
    } else {
      RecycleEndOk(Q, clean, Posted(s, q), |s.pools|);
      TxStep(s, s', q);
      TxNoMove(s, s', q);
    }
  }

  /** The 32 oldest ids of queue `q` go to the top of its pool's free stack. */
  ghost predicate Recycles(s: Sys, s': Sys, q: nat, p: nat) {
    SamePools(s, s') && q < |s.txs| == |s'.txs| && p < |s.pools|
    && s'.rxs == s.rxs && s'.pkts == s.pkts && s'.detached == s.detached && s'.mem == s.mem
    && (forall q' :: 0 <= q' < |s.txs| && q' != q ==> s'.txs[q'] == s.txs[q'])
    && (forall p' :: 0 <= p' < |s.pools| && p' != p ==> s'.pools[p'] == s.pools[p'])
    && (var Q, Q' := s.txs[q], s'.txs[q];
        1 <= Q.ring.n == Q'.ring.n == |Q.ring.descs| && Q'.ring.descs == Q.ring.descs
        && 32 <= |Q.ring.inUse| <= |Q.sent| && Q'.ring.inUse == Q.ring.inUse[32..]
        && Q'.sent == Q.sent && Q'.written == Q.written && Q.pool == Q'.pool == Some(p)
        && s'.pools[p].free == s.pools[p].free + Q.ring.inUse[..32])
  }

  lemma BatchOwned(s: Sys, s': Sys, q: nat, p: nat)
    requires Owned(s) && Recycles(s, s', q, p)
    ensures Owned(s')
  {
    var K, F := Cleaned(s.txs[q]), |s.pools[p].free|;
    var to := (l: Loc) => if l.TxFlight? && l.q == q && K <= l.c < K + 32 then Free(p, F + l.c - K) else l;
    var from := (l: Loc) => if l.Free? && l.p == p && F <= l.i then TxFlight(q, K + l.i - F) else l;
    forall l | ValidLoc(s', l) ensures Becomes(s, from(l), s', l) && to(from(l)) == l {
      BatchPlaces(s, s', q, p, l);
    }
    forall l | ValidLoc(s, l) ensures Becomes(s, l, s', to(l)) {
      BatchPlaces(s, s', q, p, l);
    }
    MovesKeep(s, s', to, from);
  }

  lemma BatchPlaces(s: Sys, s': Sys, q: nat, p: nat, l: Loc)
    requires Recycles(s, s', q, p)
    ensures var K, F := Cleaned(s.txs[q]), |s.pools[p].free|;
      if l.TxFlight? && l.q == q && K <= l.c < K + 32 then
        !ValidLoc(s', l) && Becomes(s, l, s', Free(p, F + l.c - K))
      else if l.Free? && l.p == p && F <= l.i then
        !ValidLoc(s, l) && (ValidLoc(s', l) ==> Becomes(s, TxFlight(q, K + l.i - F), s', l) && l.i < F + 32)
      else Stays(s, s', l)
  {
  }

  lemma TxFetchKeeps(s: Sys, q: nat)
    requires Inv(s) && TxFetchStep(s, q).Next?
    ensures Inv(TxFetchStep(s, q).s)
  {
    var s', Q := TxFetchStep(s, q).s, s.txs[q];
    var d := Q.ring.descs[Q.ring.head];
    if |Q.wire| < |Q.sent| {
      FlightHolds(s, q, |Q.wire|);
    }
    FetchOk(Q, CleanIndex(s, q), Posted(s, q), |s.pools|, ReadMem(s.mem, d.addr, d.len));
    TxStep(s, s', q);
    TxNoMove(s, s', q);
  }

  /** A frame the NIC is not through with is in memory, inside its own entry. */
  lemma FlightHolds(s: Sys, q: nat, c: nat)
    requires Inv(s) && q < |s.txs| && s.txs[q].written <= c < |s.txs[q].sent|
    ensures var d := TxAt(s.txs[q], c);
      ReadMem(s.mem, d.addr, d.len) == TxCut(s.txs[q].sent[c])
      && ValidLoc(s, TxFlight(q, c)) && InEntry(s, BufAt(s, TxFlight(q, c)), d.addr, d.len)
  {
    var place := TxFlight(q, c);
    assert ValidLoc(s, place) && Holds(s, place) && Live(s, place);
  }

  lemma TxWriteBackKeeps(s: Sys, q: nat, a: nat, l: nat)
    requires Inv(s) && TxWriteBackStep(s, q, a, l).Next?
    ensures Inv(TxWriteBackStep(s, q, a, l).s)
  {
    var s' := TxWriteBackStep(s, q, a, l).s;
    TxWriteBackOk(s.txs[q], CleanIndex(s, q), Posted(s, q), |s.pools|, a, l);
    TxStep(s, s', q);
    TxNoMove(s, s', q);
  }

  // ---- receive ----

  /** A step on receive queue `q` that no transmit queue notices. */
  lemma RxStep(s: Sys, s': Sys, q: nat)
    requires Queues(s) && SamePools(s, s') && s'.txs == s.txs && q < |s.rxs| == |s'.rxs|
    requires forall op :: op == s.op || op == s'.op ==>
               op == Idle || ((op.Receiving? || op.InCallback?) && op.q == q) || s'.op == s.op
    requires s'.op.Receiving? || s'.op.InCallback? ==>
               s'.op.q < |s.rxs| && s'.op.rx < s'.rxs[s'.op.q].ring.n && s'.op.last < s'.rxs[s'.op.q].ring.n
    requires forall q' :: 0 <= q' < |s.rxs| && q' != q ==> s'.rxs[q'] == s.rxs[q']
    requires s'.rxs[q].pool == s.rxs[q].pool
    requires RxOk(s'.rxs[q], PhaseOf(s'.op, q), s.pools[s.rxs[q].pool].phys)
    ensures Queues(s')
  {
    forall q' | 0 <= q' < |s.txs|
      ensures CleanIndex(s', q') == CleanIndex(s, q') && Posted(s', q') == Posted(s, q')
    {
    }
    forall q' | 0 <= q' < |s.rxs| && q' != q ensures PhaseOf(s'.op, q') == PhaseOf(s.op, q') {
    }
  }

  lemma RxNoMove(s: Sys, s': Sys, q: nat)
    requires Owned(s) && q < |s.rxs| == |s'.rxs|
    requires s'.pools == s.pools && s'.txs == s.txs && s'.pkts == s.pkts && s'.detached == s.detached && s'.mem == s.mem
    requires forall q' :: 0 <= q' < |s.rxs| && q' != q ==> s'.rxs[q'] == s.rxs[q']
    requires var Q, Q' := s.rxs[q], s'.rxs[q];
      Q'.ring.n == Q.ring.n && |Q'.ring.descs| == |Q.ring.descs| && Q'.ring.inUse == Q.ring.inUse
      && Q'.dma == Q.dma && Q'.delivered == Q.delivered && Q'.pool == Q.pool
    ensures Owned(s')
  {
    forall l ensures Stays(s, s', l) {
      if l.RxSlot? && l.q == q && ValidLoc(s, l) {
        assert Becomes(s, l, s', l);
      }
    }
    NoMove(s, s');
  }

  lemma StartReceiveKeeps(s: Sys, q: nat, budget: nat)
    requires Inv(s) && s.op == Idle
    ensures Inv(NextState(s, StartReceive(q, budget)).s)
  {
    var s' := NextState(s, StartReceive(q, budget)).s;
    if s' != s {
      RxStep(s, s', q);
      RxNoMove(s, s', q);
    }
  }

  lemma FinishKeeps(s: Sys)
    requires Inv(s) && s.op.Receiving?
    ensures Inv(FinishReceive(s).s)
  {
    var q, s' := s.op.q, FinishReceive(s).s;
    FinishOk(s.rxs[q], s.op.rx, s.op.last, s.pools[s.rxs[q].pool].phys);
    RxStep(s, s', q);
    RxNoMove(s, s', q);
  }

  lemma ReceiveIterKeeps(s: Sys, h: nat)
    requires Inv(s) && s.op.Receiving?
    ensures !ReceiveIterStep(s, h).Panicked?
    ensures ReceiveIterStep(s, h).Next? ==> Inv(ReceiveIterStep(s, h).s)
  {
    var q, rx := s.op.q, s.op.rx;
    var Q := s.rxs[q];
    SeenDone(Q, rx, s.op.last, s.pools[Q.pool].phys);
    if s.op.budget == 0 || !Q.ring.descs[rx].done || s.pools[Q.pool].free == [] {
      FinishKeeps(s);
    } else {
      PendingHolds(s, q, |Q.delivered|);
      if h !in s.pkts {
        DeliverKeeps(s, h);
      }
    }
  }

  /** A frame the driver has still to deliver is in memory, in its own entry. */
  lemma PendingHolds(s: Sys, q: nat, c: nat)
    requires Inv(s) && q < |s.rxs| && |s.rxs[q].delivered| <= c < |s.rxs[q].dma|
    ensures var Q, idx := s.rxs[q], RxBuf(s.rxs[q], c);
      ValidLoc(s, RxSlot(q, c)) && BufAt(s, RxSlot(q, c)) == Buf(Q.pool, idx) && InPools(s, Buf(Q.pool, idx))
      && InEntry(s, Buf(Q.pool, idx), s.pools[Q.pool].phys[idx], |Q.dma[c]|)
      && ReadMem(s.mem, s.pools[Q.pool].phys[idx], |Q.dma[c]|) == Q.dma[c]
  {
    var place := RxSlot(q, c);
    assert ValidLoc(s, place) && Holds(s, place) && Live(s, place);
  }

  lemma DeliverKeeps(s: Sys, h: nat)
    requires Inv(s) && s.op.Receiving? && ReceiveIterStep(s, h).Next?
    requires ReceiveIterStep(s, h).s.op.InCallback?
    ensures Inv(ReceiveIterStep(s, h).s)
  {
    var q, Q := s.op.q, s.rxs[s.op.q];
    DeliveredData(s);
    var s', buf := DeliverResult(s, h);
    DeliverQueues(s, s', h, buf);
    DeliverOwned(s, s', q, Q.pool, h, buf, RxCut(Q.dma[|Q.delivered|]));
  }

  /** The bytes the closure is shown are those of the oldest undelivered frame. */
  ghost predicate ShowsOldest(s: Sys)
    requires Formed(s) && s.op.Receiving?
  {
    var Q := s.rxs[s.op.q];
    var d, idx := |Q.delivered|, Q.ring.inUse[s.op.rx];
    d < Q.written <= |Q.dma| && idx == RxBuf(Q, d) && idx < |s.pools[Q.pool].phys|
    && ReadMem(s.mem, s.pools[Q.pool].phys[idx], R.SeenLength(Q.ring.descs[s.op.rx])) == RxCut(Q.dma[d])
  }

  lemma DeliveredData(s: Sys)
    requires Inv(s) && s.op.Receiving? && s.rxs[s.op.q].ring.descs[s.op.rx].done
    ensures ShowsOldest(s)
  {
    var Q := s.rxs[s.op.q];
    var d, idx := |Q.delivered|, Q.ring.inUse[s.op.rx];
    SeenDone(Q, s.op.rx, s.op.last, s.pools[Q.pool].phys);
    PendingHolds(s, s.op.q, d);
    ReadPrefix(s.mem, s.pools[Q.pool].phys[idx], |Q.dma[d]|, R.SeenLength(Q.ring.descs[s.op.rx]));
  }

  /** The state after one delivery, spelled out. */
  lemma DeliverResult(s: Sys, h: nat) returns (s': Sys, buf: nat)
    requires Queues(s) && s.op.Receiving? && ShowsOldest(s)
    requires ReceiveIterStep(s, h).Next? && ReceiveIterStep(s, h).s.op.InCallback?
    ensures s' == ReceiveIterStep(s, h).s && s'.op == InCallback(s.op.q, s.op.budget - 1, s.op.rx, s.op.last)
    ensures var q, Q := s.op.q, s.rxs[s.op.q];
      var f := RxCut(Q.dma[|Q.delivered|]);
      Q.ring.descs[s.op.rx].done && Delivers(s, s', q, Q.pool, h, buf, f)
      && s'.rxs[q] == Q.(ring := R.Take(Q.ring, s.op.rx, buf), delivered := Q.delivered + [f])
  {
    var q, Q := s.op.q, s.rxs[s.op.q];
    var p, f := Q.pool, RxCut(Q.dma[|Q.delivered|]);
    buf := s.pools[p].free[|s.pools[p].free| - 1];
    s' := ReceiveIterStep(s, h).s;
    DeliverOk(Q, s.op.rx, s.op.last, s.pools[p].phys, buf, f);
  }

  lemma DeliverQueues(s: Sys, s': Sys, h: nat, buf: nat)
    requires Queues(s) && s.op.Receiving? && ShowsOldest(s)
    requires s.op.budget > 0 && s'.op == InCallback(s.op.q, s.op.budget - 1, s.op.rx, s.op.last)
    requires var q, Q := s.op.q, s.rxs[s.op.q];
      var f := RxCut(Q.dma[|Q.delivered|]);
      Q.ring.descs[s.op.rx].done && Delivers(s, s', q, Q.pool, h, buf, f)
      && s'.rxs[q] == Q.(ring := R.Take(Q.ring, s.op.rx, buf), delivered := Q.delivered + [f])
    ensures Queues(s')
  {
    var q, Q := s.op.q, s.rxs[s.op.q];
    DeliverOk(Q, s.op.rx, s.op.last, s.pools[Q.pool].phys, buf, RxCut(Q.dma[|Q.delivered|]));
    RxStep(s, s', q);
  }

  /** The filled buffer goes to the client, cut to `f`, and the fresh one takes the slot a lap
      ahead. */
  ghost predicate Delivers(s: Sys, s': Sys, q: nat, p: nat, h: nat, buf: nat, f: Frame) {
    SamePools(s, s') && q < |s.rxs| == |s'.rxs| && p < |s.pools| && h !in s.pkts
    && s'.txs == s.txs && s'.detached == s.detached && s'.mem == s.mem
    && (forall q' :: 0 <= q' < |s.rxs| && q' != q ==> s'.rxs[q'] == s.rxs[q'])
    && (forall p' :: 0 <= p' < |s.pools| && p' != p ==> s'.pools[p'] == s.pools[p'])
    && s.pools[p].free == s'.pools[p].free + [buf]
    && (var Q, Q' := s.rxs[q], s'.rxs[q];
        var d, n := |Q.delivered|, Q.ring.n;
        1 <= n == Q'.ring.n == |Q.ring.descs| == |Q'.ring.descs| == |Q.ring.inUse| == |Q'.ring.inUse|
        && Q.pool == Q'.pool == p && Q'.dma == Q.dma && |Q'.delivered| == d + 1 && d < |Q.dma| < d + n
        && RxBuf(Q', d + n) == buf && (forall c :: d < c < d + n ==> RxBuf(Q', c) == RxBuf(Q, c))
        && f <= Q.dma[d]
        && s'.pkts == s.pkts[h := Packet(p, RxBuf(Q, d), EntryBase(s, Buf(p, RxBuf(Q, d))), f)])
  }

  lemma DeliverOwned(s: Sys, s': Sys, q: nat, p: nat, h: nat, buf: nat, f: Frame)
    requires Owned(s) && Delivers(s, s', q, p, h, buf, f)
    ensures Owned(s')
  {
    var d, n, top := |s.rxs[q].delivered|, s.rxs[q].ring.n, |s.pools[p].free| - 1;
    var filled, spare, taken := RxSlot(q, d), Free(p, top), RxSlot(q, d + n);
    var to := (l: Loc) => if l == filled then Client(h) else if l == spare then taken else l;
    var from := (l: Loc) => if l == Client(h) then filled else if l == taken then spare else l;
    DeliveredPlaces(s, s', q, p, h, buf, f);
    forall l | ValidLoc(s', l) ensures Becomes(s, from(l), s', l) && to(from(l)) == l {
      if l != Client(h) && l != taken && l != filled && l != spare { OtherPlaces(s, s', q, p, h, buf, f, l); }
    }
    forall l | ValidLoc(s, l) ensures Becomes(s, l, s', to(l)) {
      if l != filled && l != spare && l != Client(h) && l != taken { OtherPlaces(s, s', q, p, h, buf, f, l); }
    }
    MovesKeep(s, s', to, from);
  }

  lemma DeliveredPlaces(s: Sys, s': Sys, q: nat, p: nat, h: nat, buf: nat, f: Frame)
    requires Delivers(s, s', q, p, h, buf, f)
    ensures var d, n, top := |s.rxs[q].delivered|, s.rxs[q].ring.n, |s.pools[p].free| - 1;
      Becomes(s, RxSlot(q, d), s', Client(h)) && Becomes(s, Free(p, top), s', RxSlot(q, d + n))
      && !ValidLoc(s, Client(h)) && !ValidLoc(s, RxSlot(q, d + n))
      && !ValidLoc(s', RxSlot(q, d)) && !ValidLoc(s', Free(p, top))
  {
  }

  lemma OtherPlaces(s: Sys, s': Sys, q: nat, p: nat, h: nat, buf: nat, f: Frame, l: Loc)
    requires Delivers(s, s', q, p, h, buf, f)
    requires l !in {RxSlot(q, |s.rxs[q].delivered|), Client(h), Free(p, |s.pools[p].free| - 1),
                    RxSlot(q, |s.rxs[q].delivered| + s.rxs[q].ring.n)}
    ensures Stays(s, s', l)
  {
  }

  lemma CallbackReturnKeeps(s: Sys)
    requires Inv(s) && s.op.InCallback?
    ensures CallbackReturnStep(s).Next? && Inv(CallbackReturnStep(s).s)
  {
    var q, rx := s.op.q, s.op.rx;
    var Q := s.rxs[q];
    var d, n := |Q.delivered|, Q.ring.n;
    ModLap(d - 1, n);
    var place := RxSlot(q, d + n - 1);
    assert ValidLoc(s, place) && InPools(s, BufAt(s, place)) && RxBuf(Q, d + n - 1) == Q.ring.inUse[rx];
    RearmOk(Q, rx, s.op.last, s.pools[Q.pool].phys);
    WrapBelow(rx, n);
    RxStep(s, CallbackReturnStep(s).s, q);
    RxNoMove(s, CallbackReturnStep(s).s, q);
  }

  lemma RxFillKeeps(s: Sys, q: nat, f: Frame)
    requires Inv(s) && RxFillStep(s, q, f).Next?
    ensures Inv(RxFillStep(s, q, f).s)
  {
    var s', Q := RxFillStep(s, q, f).s, s.rxs[q];
    var place := RxSlot(q, |Q.dma|);
    FillOk(Q, PhaseOf(s.op, q), s.pools[Q.pool].phys, f);
    RxStep(s, s', q);
    FillOwned(s, s', q, Q.ring.descs[Q.ring.head].addr, f);
  }

  lemma FillOwned(s: Sys, s': Sys, q: nat, addr: nat, f: Frame)
    requires GoodPools(s.pools) && Owned(s) && q < |s.rxs| == |s'.rxs|
    requires s'.pools == s.pools && s'.txs == s.txs && s'.pkts == s.pkts && s'.detached == s.detached
    requires s'.mem == WriteMem(s.mem, addr, f)
    requires forall q' :: 0 <= q' < |s.rxs| && q' != q ==> s'.rxs[q'] == s.rxs[q']
    requires var Q, Q' := s.rxs[q], s'.rxs[q];
      1 <= Q.ring.n == Q'.ring.n == |Q.ring.descs| == |Q'.ring.descs| == |Q.ring.inUse| && Q'.ring.inUse == Q.ring.inUse
      && Q'.dma == Q.dma + [f] && Q'.delivered == Q.delivered && Q'.pool == Q.pool && Q.pool < |s.pools|
      && |Q.delivered| <= |Q.dma| < |Q.delivered| + Q.ring.n
      && addr == EntryBase(s, Buf(Q.pool, RxBuf(Q, |Q.dma|))) && |f| <= s.pools[Q.pool].entrySize
    ensures Owned(s')
  {
    var place := RxSlot(q, |s.rxs[q].dma|);
    assert ValidLoc(s, place);
    ReadBack(s.mem, addr, f);
    forall l | l != place ensures KeepsBytes(s, s', l) {
    }
    MemoryWritten(s, s', place, addr, f);
  }

  lemma RxWriteBackKeeps(s: Sys, q: nat, junk: nat)
    requires Inv(s) && RxWriteBackStep(s, q, junk).Next?
    ensures Inv(RxWriteBackStep(s, q, junk).s)
  {
    var s' := RxWriteBackStep(s, q, junk).s;
    RxWriteBackOk(s.rxs[q], PhaseOf(s.op, q), s.pools[s.rxs[q].pool].phys, junk);
    RxStep(s, s', q);
    RxNoMove(s, s', q);
  }

  // ---- all steps ----

  /** One step: no panic, and the invariant again. */
  lemma StepKeeps(s: Sys, step: Step)
    requires Inv(s) && Allowed(s, step)
    ensures !NextState(s, step).Panicked?
    ensures NextState(s, step).Next? ==> Inv(NextState(s, step).s)
  {
    if !NextState(s, step).Refused? {
      match step
      case Alloc(p, size, h) => AllocKeeps(s, p, size, h);
      case Drop(h) => DropKeeps(s, h);
      case Detach(h) => DetachKeeps(s, h);
      case Construct(p, id, len, h) => ConstructKeeps(s, p, id, len, h);
      case Write(h, data) => WriteKeeps(s, h, data);
      case Send(q, h) => SendKeeps(s, q, h);
      case Doorbell => DoorbellKeeps(s);
      case StartRecycle(q) => StartRecycleKeeps(s, q);
      case RecycleIter => RecycleIterKeeps(s);
      case StartReceive(q, budget) => StartReceiveKeeps(s, q, budget);
      case ReceiveIter(h) => ReceiveIterKeeps(s, h);
      case CallbackReturn => CallbackReturnKeeps(s);
      case TxFetch(q) => TxFetchKeeps(s, q);
      case TxWriteBack(q, a, l) => TxWriteBackKeeps(s, q, a, l);
      case RxFill(q, f) => RxFillKeeps(s, q, f);
      case RxWriteBack(q, junk) => RxWriteBackKeeps(s, q, junk);
    }
  }

  /** Every state of every run satisfies the invariant. */
  lemma {:induction false} RunKeeps(s: Sys, steps: seq<Step>, s': Sys)
    requires Inv(s) && Run(s, steps, s')
    ensures Inv(s')
    decreases |steps|
  {
    if steps != [] {
      StepKeeps(s, steps[0]);
      RunKeeps(NextState(s, steps[0]).s, steps[1..], s');
    }
  }
}
