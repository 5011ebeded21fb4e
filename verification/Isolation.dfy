/** Which memory the NIC may touch, and what happens when the client breaks its side. */
module Isolation {
  import opened Results
  import opened RingIndex
  import opened Buffers
  import opened System
  import opened Invariant
  import opened QueueSteps
  import opened Preservation
  import T = Transmit
  import R = Receive

  /** A descriptor of a receive or transmit ring. */
  datatype Slot = RxSide(q: nat, i: nat) | TxSide(q: nat, i: nat)

  /** The NIC may act on the slot: it lies between its head and the tail register. */
  predicate NicOwns(s: Sys, x: Slot) {
    match x
    case RxSide(q, i) =>
      q < |s.rxs| && i < s.rxs[q].ring.n && InRing(i, s.rxs[q].ring.head, s.rxs[q].ring.tail)
    case TxSide(q, i) =>
      q < |s.txs| && i < s.txs[q].ring.n && InRing(i, s.txs[q].ring.head, s.txs[q].ring.tail)
  }

  /** The descriptor names a buffer the NIC may still use, now or after the next write of the tail
      register: a receive descriptor without Done, a transmit descriptor posted and not yet
      written back. */
  predicate Armed(s: Sys, x: Slot) {
    match x
    case RxSide(q, i) => q < |s.rxs| && i < s.rxs[q].ring.n == |s.rxs[q].ring.descs| && !s.rxs[q].ring.descs[i].done
    case TxSide(q, i) =>
      q < |s.txs| && i < s.txs[q].ring.n == |s.txs[q].ring.descs| && InRing(i, s.txs[q].ring.wb, s.txs[q].ring.tx)
  }

  function RegionStart(s: Sys, x: Slot): nat
    requires Formed(s) && Armed(s, x)
  {
    match x
    case RxSide(q, i) => s.rxs[q].ring.descs[i].addr
    case TxSide(q, i) => s.txs[q].ring.descs[i].addr
  }

  /** A receive descriptor lets the NIC write up to a whole entry; a transmit descriptor lets it
      read the length it carries. */
  function RegionSize(s: Sys, x: Slot): nat
    requires Formed(s) && Armed(s, x)
  {
    match x
    case RxSide(q, _) => s.pools[s.rxs[q].pool].entrySize
    case TxSide(q, i) => s.txs[q].ring.descs[i].len
  }

  /** What the NIC owns is armed. */
  lemma OwnedIsArmed(s: Sys, x: Slot)
    requires Inv(s) && NicOwns(s, x)
    ensures Armed(s, x)
  {
    match x {
      case RxSide(q, i) =>
        var Q := s.rxs[q];
        assert RxOk(Q, PhaseOf(s.op, q), s.pools[Q.pool].phys);
        var c := InRingCounter(i, |Q.dma|, Q.posted + Q.ring.n - 1, Q.ring.n);
        assert Q.ring.descs[i] == RxAt(Q, c);
      case TxSide(q, i) =>
        var Q := s.txs[q];
        assert TxOk(Q, CleanIndex(s, q), Posted(s, q), |s.pools|);
        FetchableIsPosted(Q.ring, Cleaned(Q), Q.written, |Q.wire|, Posted(s, q), |Q.sent|, i);
    }
  }

  lemma FetchableIsPosted(r: T.TxRing, k: int, w: int, h: int, t: int, s: int, i: nat)
    requires T.Window(r, k, w, h, t, s) && i < r.n && InRing(i, r.head, r.tail)
    ensures InRing(i, r.wb, r.tx)
  {
    var c := InRingCounter(i, h, t, r.n);
    var c' := InRingCounter(i, w, s, r.n);
    if c <= c' { ModInjective(c, c', r.n); } else { ModInjective(c', c, r.n); }
  }

  /** The place whose entry holds the slot's region. */
  lemma SlotPlace(s: Sys, x: Slot) returns (l: Loc)
    requires Inv(s) && Armed(s, x)
    ensures ValidLoc(s, l) && InEntry(s, BufAt(s, l), RegionStart(s, x), RegionSize(s, x))
    ensures match x
            case RxSide(q, i) => l.RxSlot? && l.q == q && i == l.c % s.rxs[q].ring.n
            case TxSide(q, i) => l.TxFlight? && l.q == q && i == l.c % s.txs[q].ring.n
  {
    match x {
      case RxSide(q, i) =>
        var Q := s.rxs[q];
        var c := UndoneSlot(Q, PhaseOf(s.op, q), s.pools[Q.pool].phys, i);
        l := RxSlot(q, c);
      case TxSide(q, i) =>
        var Q := s.txs[q];
        assert TxOk(Q, CleanIndex(s, q), Posted(s, q), |s.pools|);
        var c := InRingCounter(i, Q.written, |Q.sent|, Q.ring.n);
        assert Q.ring.descs[i] == TxAt(Q, c);
        FlightHolds(s, q, c);
        l := TxFlight(q, c);
    }
  }

  /** A receive slot without Done holds the address of its buffer, also beyond the tail and in the
      middle of a call. */
  lemma UndoneSlot(Q: RxQueue, ph: RxPhase, phys: seq<nat>, i: nat) returns (c: nat)
    requires RxOk(Q, ph, phys) && i < Q.ring.n && !Q.ring.descs[i].done
    ensures |Q.delivered| <= c < |Q.delivered| + Q.ring.n && i == c % Q.ring.n
    ensures RxBuf(Q, c) < |phys| && Q.ring.descs[i].addr == phys[RxBuf(Q, c)]
  {
    var d, n := |Q.delivered|, Q.ring.n;
    c := InRingCounter(i, d, d, n);
    assert Q.ring.descs[i] == RxAt(Q, c);
    if ph.AtCallback? {
      ModLap(d - 1, n);
    }
  }

  lemma EntriesApart(s: Sys, l: Loc, l': Loc, a: nat, m: nat, a': nat, m': nat)
    requires Inv(s) && ValidLoc(s, l) && ValidLoc(s, l') && l != l'
    requires InEntry(s, BufAt(s, l), a, m) && InEntry(s, BufAt(s, l'), a', m')
    ensures DisjointRanges(a, m, a', m')
  {
    var b, b' := BufAt(s, l), BufAt(s, l');
    assert b != b';
    assert DisjointRanges(s.pools[b.pool].phys[b.id], s.pools[b.pool].entrySize,
                          s.pools[b'.pool].phys[b'.id], s.pools[b'.pool].entrySize);
  }

  /** After every run, the regions armed in any two descriptors, of any queues, are disjoint,
      whether or not the NIC has been told of them yet and until it writes them back; each lies
      inside one pool entry; none meets a client packet or an entry that is free or detached. */
  lemma DmaDisjoint(s: Sys, steps: seq<Step>, s': Sys)
    requires Inv(s) && Run(s, steps, s')
    ensures Formed(s') && forall x | NicOwns(s', x) :: Armed(s', x)
    ensures forall x, y | Armed(s', x) && Armed(s', y) && x != y ::
      DisjointRanges(RegionStart(s', x), RegionSize(s', x), RegionStart(s', y), RegionSize(s', y))
    ensures forall x | Armed(s', x) :: exists b :: InEntry(s', b, RegionStart(s', x), RegionSize(s', x))
    ensures forall x, h | Armed(s', x) && h in s'.pkts ::
      DisjointRanges(RegionStart(s', x), RegionSize(s', x), s'.pkts[h].addr, |s'.pkts[h].data|)
    ensures forall x, l | Armed(s', x) && ValidLoc(s', l) && (l.Free? || l.Detached?) :: AvoidsEntry(s', x, BufAt(s', l))
  {
    RunKeeps(s, steps, s');
    forall x | NicOwns(s', x) ensures Armed(s', x) {
      OwnedIsArmed(s', x);
    }
    forall x, y | Armed(s', x) && Armed(s', y) && x != y
      ensures DisjointRanges(RegionStart(s', x), RegionSize(s', x), RegionStart(s', y), RegionSize(s', y))
    {
      SlotsApart(s', x, y);
    }
    forall x | Armed(s', x) ensures exists b :: InEntry(s', b, RegionStart(s', x), RegionSize(s', x)) {
      var l := SlotPlace(s', x);
    }
    forall x, h | Armed(s', x) && h in s'.pkts
      ensures DisjointRanges(RegionStart(s', x), RegionSize(s', x), s'.pkts[h].addr, |s'.pkts[h].data|)
    {
      PacketApart(s', x, h);
    }
    forall x, l | Armed(s', x) && ValidLoc(s', l) && (l.Free? || l.Detached?) ensures AvoidsEntry(s', x, BufAt(s', l)) {
      IdleApart(s', x, l);
    }
  }

  lemma SlotsApart(s: Sys, x: Slot, y: Slot)
    requires Inv(s) && Armed(s, x) && Armed(s, y) && x != y
    ensures DisjointRanges(RegionStart(s, x), RegionSize(s, x), RegionStart(s, y), RegionSize(s, y))
  {
    var l := SlotPlace(s, x);
    var l' := SlotPlace(s, y);
    EntriesApart(s, l, l', RegionStart(s, x), RegionSize(s, x), RegionStart(s, y), RegionSize(s, y));
  }

  lemma PacketApart(s: Sys, x: Slot, h: nat)
    requires Inv(s) && Armed(s, x) && h in s.pkts
    ensures DisjointRanges(RegionStart(s, x), RegionSize(s, x), s.pkts[h].addr, |s.pkts[h].data|)
  {
    var l := SlotPlace(s, x);
    assert ValidLoc(s, Client(h)) && Holds(s, Client(h));
    EntriesApart(s, l, Client(h), RegionStart(s, x), RegionSize(s, x), s.pkts[h].addr, |s.pkts[h].data|);
  }

  /** The slot's region meets no byte of the entry. */
  ghost predicate AvoidsEntry(s: Sys, x: Slot, b: Buf)
    requires Formed(s) && Armed(s, x)
  {
    InPools(s, b)
    && DisjointRanges(RegionStart(s, x), RegionSize(s, x), EntryBase(s, b), s.pools[b.pool].entrySize)
  }

  lemma IdleApart(s: Sys, x: Slot, l: Loc)
    requires Inv(s) && Armed(s, x) && ValidLoc(s, l) && (l.Free? || l.Detached?)
    ensures AvoidsEntry(s, x, BufAt(s, l))
  {
    var k := SlotPlace(s, x);
    var b := BufAt(s, l);
    EntriesApart(s, k, l, RegionStart(s, x), RegionSize(s, x), EntryBase(s, b), s.pools[b.pool].entrySize);
  }

  // ---- the client's side, exactly ----

  /** An accepted packet keeps every buffer accounted for exactly when it comes from the pool of
      the ids in flight: `send` replaces the queue's pool first and only then compares, so its
      own assertion cannot catch the mix. */
  lemma SendMixesExact(s: Sys, q: nat, h: nat)
    requires Inv(s) && s.op == Idle && q < |s.txs| && h in s.pkts && T.CanSend(s.txs[q].ring)
    ensures SendStep(s, q, h).Next?
    ensures Conserved(SendStep(s, q, h).s) <==> PoolMatches(s, q, h)
  {
    if PoolMatches(s, q, h) {
      SendKeeps(s, q, h);
    } else {
      MixLosesBuffer(s, q, h);
    }
  }

  /** The oldest id in flight is then counted as an entry of the wrong pool. */
  lemma MixLosesBuffer(s: Sys, q: nat, h: nat)
    requires Inv(s) && s.op == Idle && q < |s.txs| && h in s.pkts && T.CanSend(s.txs[q].ring)
    requires !PoolMatches(s, q, h)
    ensures !Conserved(SendStep(s, q, h).s)
  {
    var s', Q, lost := SendStep(s, q, h).s, s.txs[q], TxFlight(q, Cleaned(s.txs[q]));
    assert ValidLoc(s, lost);
    var b := BufAt(s, lost);
    assert InPools(s', b);
    forall l | ValidLoc(s', l) ensures BufAt(s', l) != b {
      if l.TxFlight? && l.q == q {
        assert BufAt(s', l).pool == s.pkts[h].pool != b.pool;
      } else {
        assert ValidLoc(s, l) && BufAt(s, l) == BufAt(s', l);
      }
    }
  }

  /** A packet constructed from an entry of a pool keeps the invariant exactly when the entry
      was detached and the packet ends inside it. */
  lemma ConstructExact(s: Sys, p: nat, id: nat, len: nat, h: nat)
    requires Inv(s) && InPools(s, Buf(p, id)) && h !in s.pkts
    ensures ConstructStep(s, p, id, len, h).Next?
    ensures Inv(ConstructStep(s, p, id, len, h).s) <==>
              Buf(p, id) in s.detached && HEADROOM + len <= s.pools[p].entrySize
  {
    if Buf(p, id) !in s.detached {
      ConstructDuplicates(s, p, id, len, h);
    } else if HEADROOM + len > s.pools[p].entrySize {
      assert !Holds(ConstructStep(s, p, id, len, h).s, Client(h));
    } else {
      ConstructKeeps(s, p, id, len, h);
    }
  }

  /** An entry that is not detached has an owner, who keeps it. */
  lemma ConstructDuplicates(s: Sys, p: nat, id: nat, len: nat, h: nat)
    requires Conserved(s) && InPools(s, Buf(p, id)) && h !in s.pkts && Buf(p, id) !in s.detached
    ensures !Conserved(ConstructStep(s, p, id, len, h).s)
  {
    var s' := ConstructStep(s, p, id, len, h).s;
    assert ValidLoc(s', Client(h)) && BufAt(s', Client(h)) == Buf(p, id);
    var l :| ValidLoc(s, l) && BufAt(s, l) == Buf(p, id);
    assert ValidLoc(s', l) && BufAt(s', l) == Buf(p, id);
  }

  /** The `k` bytes in front of the packet lie in its own entry. */
  ghost predicate HeadroomInside(s: Sys, pkt: Packet, k: nat) {
    k <= pkt.addr && InEntry(s, Buf(pkt.pool, pkt.entry), pkt.addr - k, k)
  }

  /** An allocated packet has its full headroom inside its own entry. */
  lemma AllocatedHeadroom(s: Sys, p: nat, size: nat, h: nat, k: nat)
    requires Inv(s) && h !in s.pkts && AllocStep(s, p, size, h).Next? && h in AllocStep(s, p, size, h).s.pkts
    requires k <= HEADROOM
    ensures var s' := AllocStep(s, p, size, h).s;
      HeadroomInside(s', s'.pkts[h], k) && |s'.pkts[h].data| == size
  {
    FreeIdsInPool(s, p, |s.pools[p].free| - 1);
  }

  /** A received packet starts at its entry, so any headroom asked of it lies outside. */
  lemma ReceivedHeadroom(s: Sys, h: nat, k: nat)
    requires Inv(s) && s.op.Receiving? && h !in s.pkts && ReceiveIterStep(s, h).Next?
    requires h in ReceiveIterStep(s, h).s.pkts
    ensures var s' := ReceiveIterStep(s, h).s;
      HeadroomInside(s', s'.pkts[h], k) <==> k == 0
  {
    DeliveredData(s);
  }
}
