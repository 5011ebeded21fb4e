/** What each action on one queue keeps, in terms of that queue alone. */
module QueueSteps {
  import opened Results
  import opened RingIndex
  import opened Buffers
  import opened System
  import opened Invariant
  import T = Transmit
  import R = Receive

  // ---- transmit ----

  lemma PostOk(Q: TxQueue, clean: nat, pools: nat, p: Packet)
    requires TxOk(Q, clean, |Q.sent|, pools) && clean == Q.ring.clean && TxArmed(Q)
    requires T.CanSend(Q.ring) && p.pool < pools
    ensures var Q' := Q.(ring := T.Post(Q.ring, p.addr, |p.data|, p.entry), pool := Some(p.pool), sent := Q.sent + [p.data]);
            TxOk(Q', clean, |Q.sent|, pools) && TxArmed(Q') && Cleaned(Q') == Cleaned(Q)
            && TxAt(Q', |Q.sent|).addr == p.addr
            && forall c :: Cleaned(Q) <= c < |Q.sent| ==> TxAt(Q', c) == TxAt(Q, c)
  {
    var S := |Q.sent|;
    T.CanSendExact(Q.ring, Cleaned(Q), Q.written, |Q.wire|, S, S);
    T.PostWindow(Q.ring, Cleaned(Q), Q.written, |Q.wire|, S, S, p.addr, |p.data|, p.entry);
    PostArmed(Q, p);
  }

  lemma PostArmed(Q: TxQueue, p: Packet)
    requires TxArmed(Q) && Q.ring.tx == |Q.sent| % Q.ring.n && Cleaned(Q) <= Q.written && 0 <= Cleaned(Q) && |Q.ring.inUse| < Q.ring.n
    ensures TxArmed(Q.(ring := T.Post(Q.ring, p.addr, |p.data|, p.entry), pool := Some(p.pool), sent := Q.sent + [p.data]))
  {
    T.PostSlots(Q.ring, Cleaned(Q), |Q.sent|, p.addr, |p.data|, p.entry);
  }

  lemma DoorbellOk(Q: TxQueue, clean: nat, posted: int, pools: nat)
    requires TxOk(Q, clean, posted, pools) && TxArmed(Q)
    ensures var Q' := Q.(ring := T.Ring(Q.ring));
            TxOk(Q', clean, |Q.sent|, pools) && TxArmed(Q') && forall c: nat :: TxAt(Q', c) == TxAt(Q, c)
  {
    T.RingWindow(Q.ring, Cleaned(Q), Q.written, |Q.wire|, posted, |Q.sent|);
  }

  lemma BatchOk(Q: TxQueue, clean: nat, posted: int, pools: nat)
    requires TxOk(Q, clean, posted, pools) && TxArmed(Q) && T.BatchReady(Q.ring, clean)
    ensures Q.pool.Some? && |Q.ring.inUse| >= 32 && T.Drained(Q.ring, true) == Q.ring.inUse[..32]
    ensures Cleaned(Q) + 32 <= Q.written
    ensures var Q' := Q.(ring := T.AfterBatch(Q.ring, true));
            Cleaned(Q') == Cleaned(Q) + 32 && TxArmed(Q')
            && TxOk(Q', WrapRing(T.BatchEnd(Q.ring, clean), Q.ring.n), posted, pools)
  {
    T.BatchReadyExact(Q.ring, clean, Cleaned(Q), Q.written, |Q.wire|, posted, |Q.sent|);
    T.BatchWindow(Q.ring, clean, Cleaned(Q), Q.written, |Q.wire|, posted, |Q.sent|);
  }

  lemma RecycleEndOk(Q: TxQueue, clean: nat, posted: int, pools: nat)
    requires TxOk(Q, clean, posted, pools) && TxArmed(Q)
    ensures var Q' := Q.(ring := Q.ring.(clean := clean));
            TxOk(Q', clean, posted, pools) && TxArmed(Q') && forall c: nat :: TxAt(Q', c) == TxAt(Q, c)
  {
    T.SetCleanWindow(Q.ring, Cleaned(Q), Q.written, |Q.wire|, posted, |Q.sent|, clean);
  }

  lemma FetchOk(Q: TxQueue, clean: nat, posted: int, pools: nat, f: Frame)
    requires TxOk(Q, clean, posted, pools) && TxArmed(Q) && Q.ring.head != Q.ring.tail
    requires |Q.wire| < |Q.sent| ==> f == TxCut(Q.sent[|Q.wire|])
    ensures |Q.wire| < posted && Q.ring.descs[Q.ring.head] == TxAt(Q, |Q.wire|)
    ensures var Q' := Q.(ring := T.NicStep(Q.ring, T.Fetch), wire := Q.wire + [f]);
            TxOk(Q', clean, posted, pools) && TxArmed(Q') && forall c: nat :: TxAt(Q', c) == TxAt(Q, c)
  {
    T.FetchWindow(Q.ring, Cleaned(Q), Q.written, |Q.wire|, posted, |Q.sent|);
  }

  lemma TxWriteBackOk(Q: TxQueue, clean: nat, posted: int, pools: nat, a: nat, l: nat)
    requires TxOk(Q, clean, posted, pools) && TxArmed(Q) && Q.ring.wb != Q.ring.head
    ensures var Q' := Q.(ring := T.NicStep(Q.ring, T.WriteBack(a, l)), written := Q.written + 1);
            TxOk(Q', clean, posted, pools) && TxArmed(Q')
            && forall c :: Q.written < c < |Q.sent| ==> TxAt(Q', c) == TxAt(Q, c)
  {
    T.WriteBackWindow(Q.ring, Cleaned(Q), Q.written, |Q.wire|, posted, |Q.sent|, a, l);
  }

  // ---- receive ----

  /** Done at the index the loop looks at means one more frame is there to deliver. */
  lemma SeenDone(Q: RxQueue, rx: nat, last: nat, phys: seq<nat>)
    requires RxOk(Q, AtLoop(rx, last), phys) || (RxOk(Q, Between, phys) && rx == Q.ring.rx)
    ensures Q.ring.descs[rx].done <==> |Q.delivered| < Q.written
    ensures Q.ring.descs[rx] == RxAt(Q, |Q.delivered|)
  {
    assert Q.ring.descs[rx] == RxAt(Q, |Q.delivered|);
  }

  /** Descriptors and buffers that do not change keep saying what they should. */
  lemma SameDescs(Q: RxQueue, Q': RxQueue, e: int, phys: seq<nat>)
    requires RxDescs(Q, e, phys) && 1 <= Q'.ring.n == |Q'.ring.descs| == |Q'.ring.inUse|
    requires Q'.written == Q.written <= |Q.dma| && Q.dma <= Q'.dma && |Q.delivered| <= |Q'.delivered|
    requires forall c :: |Q'.delivered| <= c < e ==> RxAt(Q', c) == RxAt(Q, c)
    requires forall c :: |Q'.delivered| <= c < e ==> RxBuf(Q', c) == RxBuf(Q, c)
    requires |Q'.delivered| <= Q.written <= e
    ensures RxDescs(Q', e, phys)
  {
    forall c | |Q'.delivered| <= c < Q'.written ensures RxAt(Q', c).len == |Q'.dma[c]| {
      assert RxAt(Q', c) == RxAt(Q, c);
    }
    forall c | Q'.written <= c < e ensures RxBuf(Q', c) < |phys| && RxAt(Q', c).addr == phys[RxBuf(Q', c)] {
      assert RxAt(Q', c) == RxAt(Q, c) && RxBuf(Q', c) == RxBuf(Q, c);
    }
  }

  lemma DeliverOk(Q: RxQueue, rx: nat, last: nat, phys: seq<nat>, buf: nat, f: Frame)
    requires RxOk(Q, AtLoop(rx, last), phys) && Q.ring.descs[rx].done
    requires |Q.delivered| < Q.written ==> f == RxCut(Q.dma[|Q.delivered|])
    ensures var Q' := Q.(ring := R.Take(Q.ring, rx, buf), delivered := Q.delivered + [f]);
            var d := |Q.delivered|;
            RxOk(Q', AtCallback(rx, last), phys)
            && RxBuf(Q', d + Q.ring.n) == buf
            && forall c :: d < c < d + Q.ring.n ==> RxBuf(Q', c) == RxBuf(Q, c)
  {
    var Q' := Q.(ring := R.Take(Q.ring, rx, buf), delivered := Q.delivered + [f]);
    var d := |Q.delivered|;
    SeenDone(Q, rx, last, phys);
    R.TakeWindow(Q.ring, Q.posted, d, Q.written, |Q.dma|, rx, buf);
    assert RxDescs(Q, d + Q.ring.n, phys);
    SameDescs(Q, Q', d + Q.ring.n, phys);
  }

  lemma RearmOk(Q: RxQueue, rx: nat, last: nat, phys: seq<nat>)
    requires RxOk(Q, AtCallback(rx, last), phys) && Q.ring.inUse[rx] < |phys|
    ensures RxOk(Q.(ring := R.Rearm(Q.ring, rx, phys[Q.ring.inUse[rx]])), AtLoop(WrapRing(rx, Q.ring.n), rx), phys)
  {
    var d := |Q.delivered|;
    R.RearmWindow(Q.ring, Q.posted, d - 1, Q.written, |Q.dma|, rx, phys[Q.ring.inUse[rx]]);
    RearmDescs(Q, rx, phys);
    WrapCounter(d - 1, rx, Q.ring.n);
  }

  lemma RearmDescs(Q: RxQueue, rx: nat, phys: seq<nat>)
    requires R.Shape(Q.ring) && 1 <= |Q.delivered| <= Q.written <= |Q.dma| && Q.written <= |Q.delivered| - 1 + Q.ring.n
    requires rx == (|Q.delivered| - 1) % Q.ring.n && Q.ring.inUse[rx] < |phys|
    requires RxDescs(Q, |Q.delivered| - 1 + Q.ring.n, phys)
    ensures RxDescs(Q.(ring := R.Rearm(Q.ring, rx, phys[Q.ring.inUse[rx]])), |Q.delivered| + Q.ring.n, phys)
  {
    var Q' := Q.(ring := R.Rearm(Q.ring, rx, phys[Q.ring.inUse[rx]]));
    var d := |Q.delivered|;
    R.RearmElsewhere(Q.ring, d - 1, phys[Q.ring.inUse[rx]]);
    SameDescs(Q, Q', d - 1 + Q.ring.n, phys);
    assert RxBuf(Q', d - 1 + Q.ring.n) == Q.ring.inUse[rx];
  }

  lemma FinishOk(Q: RxQueue, rx: nat, last: nat, phys: seq<nat>)
    requires RxOk(Q, AtLoop(rx, last), phys)
    ensures RxOk(Q.(ring := R.Finish(Q.ring, rx, last), posted := if rx != last then |Q.delivered| else Q.posted),
                 Between, phys)
  {
    var Q' := Q.(ring := R.Finish(Q.ring, rx, last), posted := if rx != last then |Q.delivered| else Q.posted);
    R.MovedExact(Q.ring, Q.posted, |Q.delivered|, Q.written, |Q.dma|, rx, last);
    R.FinishWindow(Q.ring, Q.posted, |Q.delivered|, Q.written, |Q.dma|, rx, last);
    SameDescs(Q, Q', |Q.delivered| + Q.ring.n, phys);
  }

  lemma FillOk(Q: RxQueue, ph: RxPhase, phys: seq<nat>, f: Frame)
    requires RxOk(Q, ph, phys) && Q.ring.head != Q.ring.tail && |f| < 0x1_0000
    ensures |Q.dma| < Q.posted + Q.ring.n - 1
    ensures RxBuf(Q, |Q.dma|) < |phys| && Q.ring.descs[Q.ring.head].addr == phys[RxBuf(Q, |Q.dma|)]
    ensures RxOk(Q.(ring := R.Fill(Q.ring), dma := Q.dma + [f]), ph, phys)
  {
    var Q' := Q.(ring := R.Fill(Q.ring), dma := Q.dma + [f]);
    R.FillWindow(Q.ring, Q.posted, |Q.delivered|, ArmedEnd(Q, ph), Q.written, |Q.dma|);
    assert Q.ring.descs[Q.ring.head] == RxAt(Q, |Q.dma|);
    SameDescs(Q, Q', ArmedEnd(Q, ph), phys);
  }

  lemma RxWriteBackOk(Q: RxQueue, ph: RxPhase, phys: seq<nat>, junk: nat)
    requires RxOk(Q, ph, phys) && Q.ring.wb != Q.ring.head && Q.written < |Q.dma|
    ensures RxOk(Q.(ring := R.WriteBack(Q.ring, |Q.dma[Q.written]|, junk), written := Q.written + 1), ph, phys)
  {
    var W, e := Q.written, ArmedEnd(Q, ph);
    var Q' := Q.(ring := R.WriteBack(Q.ring, |Q.dma[W]|, junk), written := W + 1);
    R.WriteBackWindow(Q.ring, Q.posted, |Q.delivered|, e, W, |Q.dma|, |Q.dma[W]|, junk);
    forall c | |Q'.delivered| <= c < Q'.written ensures RxAt(Q', c).len == |Q'.dma[c]| {
      assert c == W || RxAt(Q', c) == RxAt(Q, c);
    }
    forall c | Q'.written <= c < e ensures RxBuf(Q', c) < |phys| && RxAt(Q', c).addr == phys[RxBuf(Q', c)] {
      assert RxAt(Q', c) == RxAt(Q, c) && RxBuf(Q', c) == RxBuf(Q, c);
    }
  }
}
