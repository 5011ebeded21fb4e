/** The invariant of the step system: the counters behind the ring indices, the ownership of
    every buffer, and the bytes every live buffer holds. */
module Invariant {
  import opened Results
  import opened RingIndex
  import opened Buffers
  import opened System
  import T = Transmit
  import R = Receive

  // ---- transmit queues ----

  /** Packets whose ids have gone back to the pool. */
  function Cleaned(Q: TxQueue): int {
    |Q.sent| - |Q.ring.inUse|
  }

  function TxAt(Q: TxQueue, c: nat): T.TxDesc
    requires 1 <= Q.ring.n == |Q.ring.descs|
  {
    T.At(Q.ring, c)
  }

  /** A transmit queue keeps the counters of its ring; it has a pool while ids are in flight;
      the wire has carried a prefix of what was sent. `clean` is the clean index the driver
      currently works with and `posted` the counter of the tail register. */
  ghost predicate TxOk(Q: TxQueue, clean: nat, posted: int, pools: nat) {
    T.Window(Q.ring, Cleaned(Q), Q.written, |Q.wire|, posted, |Q.sent|)
    && clean == Cleaned(Q) % Q.ring.n
    && (Q.ring.inUse != [] ==> Q.pool.Some?)
    && (Q.pool.Some? ==> Q.pool.value < pools)
    && (forall c :: 0 <= c < |Q.wire| ==> Q.wire[c] == TxCut(Q.sent[c]))
  }

  function CleanIndex(s: Sys, q: nat): nat
    requires q < |s.txs|
  {
    if s.op.Recycling? && s.op.q == q then s.op.clean else s.txs[q].ring.clean
  }

  function Posted(s: Sys, q: nat): int
    requires q < |s.txs|
  {
    if s.op == Sending(q) then |s.txs[q].sent| - 1 else |s.txs[q].sent|
  }

  // ---- receive queues ----

  datatype RxPhase = Between | AtLoop(rx: nat, last: nat) | AtCallback(rx: nat, last: nat)

  function PhaseOf(op: Op, q: nat): RxPhase {
    match op
    case Receiving(q', _, rx, last) => if q == q' then AtLoop(rx, last) else Between
    case InCallback(q', _, rx, last) => if q == q' then AtCallback(rx, last) else Between
    case _ => Between
  }

  function RxAt(Q: RxQueue, c: nat): R.RxDesc
    requires 1 <= Q.ring.n == |Q.ring.descs|
  {
    R.At(Q.ring, c)
  }

  function RxBuf(Q: RxQueue, c: nat): nat
    requires 1 <= Q.ring.n == |Q.ring.inUse|
  {
    R.BufOf(Q.ring, c)
  }

  /** The local index variables of `receive_packets` in terms of the counters. */
  ghost predicate PhaseOk(Q: RxQueue, ph: RxPhase)
    requires R.Shape(Q.ring)
  {
    var n, d := Q.ring.n, |Q.delivered|;
    match ph
    case Between => Q.posted == d && Q.ring.rx == d % n
    case AtLoop(rx, last) =>
      Q.posted <= d && R.LoopIndices(Q.ring, Q.posted, d, rx, last)
    case AtCallback(rx, last) =>
      Q.posted < d && Q.ring.rx == Q.posted % n && rx == (d - 1) % n && Q.ring.descs[rx].done
  }

  /** First counter whose slot is not armed yet. */
  function ArmedEnd(Q: RxQueue, ph: RxPhase): int {
    if ph.AtCallback? then |Q.delivered| + Q.ring.n - 1 else |Q.delivered| + Q.ring.n
  }

  /** What is written back carries the length of its frame; every slot armed after it, up to
      `e`, holds the address of its buffer. */
  ghost predicate RxDescs(Q: RxQueue, e: int, phys: seq<nat>) {
    1 <= Q.ring.n == |Q.ring.descs| == |Q.ring.inUse|
    && (forall c :: |Q.delivered| <= c < Q.written && c < |Q.dma| ==> RxAt(Q, c).len == |Q.dma[c]|)
    && (forall c :: Q.written <= c < e ==> RxBuf(Q, c) < |phys| && RxAt(Q, c).addr == phys[RxBuf(Q, c)])
  }

  /** The closure has been given the filled frames in order. */
  ghost predicate RxLog(Q: RxQueue) {
    |Q.delivered| <= |Q.dma|
    && (forall c :: 0 <= c < |Q.dma| ==> |Q.dma[c]| < 0x1_0000)
    && (forall c :: 0 <= c < |Q.delivered| ==> Q.delivered[c] == RxCut(Q.dma[c]))
  }

  ghost predicate RxOk(Q: RxQueue, ph: RxPhase, phys: seq<nat>) {
    R.Window(Q.ring, Q.posted, |Q.delivered|, ArmedEnd(Q, ph), Q.written, |Q.dma|) && PhaseOk(Q, ph)
    && RxDescs(Q, ArmedEnd(Q, ph), phys) && RxLog(Q)
  }

  // ---- ownership ----

  /** The places a buffer can be in. Ring places are named by counter, so they do not move. */
  datatype Loc =
    | Free(p: nat, i: nat)
    | RxSlot(q: nat, c: nat)
    | TxFlight(q: nat, c: nat)
    | Client(h: nat)
    | Detached(b: Buf)

  predicate ValidLoc(s: Sys, l: Loc) {
    match l
    case Free(p, i) => p < |s.pools| && i < |s.pools[p].free|
    case RxSlot(q, c) =>
      q < |s.rxs| && 1 <= s.rxs[q].ring.n == |s.rxs[q].ring.inUse| == |s.rxs[q].ring.descs|
      && |s.rxs[q].delivered| <= c < |s.rxs[q].delivered| + s.rxs[q].ring.n
    case TxFlight(q, c) =>
      q < |s.txs| && 1 <= s.txs[q].ring.n == |s.txs[q].ring.descs| && Cleaned(s.txs[q]) <= c < |s.txs[q].sent|
    case Client(h) => h in s.pkts
    case Detached(b) => b in s.detached
  }

  function BufAt(s: Sys, l: Loc): Buf
    requires ValidLoc(s, l)
  {
    match l
    case Free(p, i) => Buf(p, s.pools[p].free[i])
    case RxSlot(q, c) => Buf(s.rxs[q].pool, RxBuf(s.rxs[q], c))
    case TxFlight(q, c) =>
      Buf(if s.txs[q].pool.Some? then s.txs[q].pool.value else 0, s.txs[q].ring.inUse[c - Cleaned(s.txs[q])])
    case Client(h) => Buf(s.pkts[h].pool, s.pkts[h].entry)
    case Detached(b) => b
  }

  predicate InPools(s: Sys, b: Buf) {
    b.pool < |s.pools| && b.id < |s.pools[b.pool].phys|
  }

  /** Every place holds a buffer of some pool, no buffer is in two places, and every buffer of
      every pool is in one. */
  ghost predicate Conserved(s: Sys) {
    (forall l :: ValidLoc(s, l) ==> InPools(s, BufAt(s, l)))
    && (forall l, l' :: ValidLoc(s, l) && ValidLoc(s, l') && BufAt(s, l) == BufAt(s, l') ==> l == l')
    && (forall b :: InPools(s, b) ==> exists l :: ValidLoc(s, l) && BufAt(s, l) == b)
  }

  // ---- contents ----

  /** Places whose bytes matter: frames not yet delivered, frames the NIC is not through with, and
      the client's packets. */
  predicate Live(s: Sys, l: Loc)
    requires ValidLoc(s, l)
  {
    match l
    case Free(_, _) => false
    case RxSlot(q, c) => c < |s.rxs[q].dma|
    case TxFlight(q, c) => c >= s.txs[q].written
    case Client(h) => true
    case Detached(_) => false
  }

  function EntryBase(s: Sys, b: Buf): nat {
    if InPools(s, b) then s.pools[b.pool].phys[b.id] else 0
  }

  function Addr(s: Sys, l: Loc): nat
    requires ValidLoc(s, l) && Live(s, l)
  {
    match l
    case RxSlot(q, c) => EntryBase(s, Buf(s.rxs[q].pool, RxBuf(s.rxs[q], c)))
    case TxFlight(q, c) => TxAt(s.txs[q], c).addr
    case Client(h) => s.pkts[h].addr
  }

  function Data(s: Sys, l: Loc): Frame
    requires ValidLoc(s, l) && Live(s, l)
  {
    match l
    case RxSlot(q, c) => s.rxs[q].dma[c]
    case TxFlight(q, c) => TxCut(s.txs[q].sent[c])
    case Client(h) => s.pkts[h].data
  }

  predicate InEntry(s: Sys, b: Buf, addr: nat, len: nat) {
    InPools(s, b) && EntryBase(s, b) <= addr && addr + len <= EntryBase(s, b) + s.pools[b.pool].entrySize
  }

  /** The bytes lie inside the entry the place owns and memory holds them. */
  ghost predicate Holds(s: Sys, l: Loc)
    requires ValidLoc(s, l)
  {
    Live(s, l) ==>
      InEntry(s, BufAt(s, l), Addr(s, l), |Data(s, l)|)
      && ReadMem(s.mem, Addr(s, l), |Data(s, l)|) == Data(s, l)
  }

  ghost predicate AllHold(s: Sys) {
    forall l :: ValidLoc(s, l) ==> Holds(s, l)
  }

  /** A transmit descriptor not yet written back carries the length of its frame. */
  ghost predicate TxArmed(Q: TxQueue) {
    1 <= Q.ring.n == |Q.ring.descs|
    && forall c :: Q.written <= c < |Q.sent| ==> TxAt(Q, c).len == |TxCut(Q.sent[c])|
  }

  // ---- configuration ----

  /** Entries hold at least the headroom and no two overlap in physical memory. */
  ghost predicate GoodPools(pools: seq<Pool>) {
    (forall p :: 0 <= p < |pools| ==> pools[p].entrySize >= HEADROOM)
    && forall p, i, p', i' | 0 <= p < |pools| && 0 <= i < |pools[p].phys|
                             && 0 <= p' < |pools| && 0 <= i' < |pools[p'].phys| && (p != p' || i != i') ::
         DisjointRanges(pools[p].phys[i], pools[p].entrySize, pools[p'].phys[i'], pools[p'].entrySize)
  }

  ghost predicate Queues(s: Sys) {
    Formed(s)
    && (forall q :: 0 <= q < |s.txs| ==>
          TxOk(s.txs[q], CleanIndex(s, q), Posted(s, q), |s.pools|) && TxArmed(s.txs[q]))
    && (forall q :: 0 <= q < |s.rxs| ==> RxOk(s.rxs[q], PhaseOf(s.op, q), s.pools[s.rxs[q].pool].phys))
  }

  ghost predicate Owned(s: Sys) {
    Conserved(s) && AllHold(s)
  }

  ghost predicate Inv(s: Sys) {
    GoodPools(s.pools) && Queues(s) && Owned(s)
  }

  // ---- moving buffers ----

  /** Pools keep their entries. */
  ghost predicate SamePools(s: Sys, s': Sys) {
    |s'.pools| == |s.pools|
    && forall p :: 0 <= p < |s.pools| ==>
         s'.pools[p].phys == s.pools[p].phys && s'.pools[p].entrySize == s.pools[p].entrySize
  }

  /** `k` in `s` becomes `l` in `s'`: the same buffer, and bytes that were there before. */
  ghost predicate Becomes(s: Sys, k: Loc, s': Sys, l: Loc) {
    ValidLoc(s, k) && ValidLoc(s', l) && BufAt(s', l) == BufAt(s, k)
    && (Live(s', l) ==>
          Holds(s', l)
          || (Live(s, k) && Addr(s', l) == Addr(s, k) && Data(s', l) <= Data(s, k)))
  }

  /** Each place of `s'` stems from one place of `s`, and all places of `s` are accounted for. */
  ghost predicate Moves(s: Sys, s': Sys, to: Loc -> Loc, from: Loc -> Loc) {
    (forall l :: ValidLoc(s, l) ==> Becomes(s, l, s', to(l)))
    && (forall l :: ValidLoc(s', l) ==> Becomes(s, from(l), s', l) && to(from(l)) == l)
  }

  /** A one-to-one move conserves ownership and, memory being untouched, the bytes. */
  lemma MovesKeep(s: Sys, s': Sys, to: Loc -> Loc, from: Loc -> Loc)
    requires Owned(s) && SamePools(s, s') && s'.mem == s.mem
    requires Moves(s, s', to, from)
    ensures Owned(s')
  {
    forall b | InPools(s', b) ensures exists l :: ValidLoc(s', l) && BufAt(s', l) == b {
      assert InPools(s, b);
      var l :| ValidLoc(s, l) && BufAt(s, l) == b;
      assert ValidLoc(s', to(l)) && BufAt(s', to(l)) == b;
    }
    forall l, l' | ValidLoc(s', l) && ValidLoc(s', l') && BufAt(s', l) == BufAt(s', l') ensures l == l' {
      assert from(l) == from(l');
      assert to(from(l)) == l && to(from(l')) == l';
    }
    forall l | ValidLoc(s', l) ensures InPools(s', BufAt(s', l)) && Holds(s', l) {
      BecomesHolds(s, from(l), s', l);
    }
  }

  lemma BecomesHolds(s: Sys, k: Loc, s': Sys, l: Loc)
    requires Becomes(s, k, s', l) && SamePools(s, s') && s'.mem == s.mem
    requires InPools(s, BufAt(s, k)) && Holds(s, k)
    ensures InPools(s', BufAt(s', l)) && Holds(s', l)
  {
    if Live(s', l) && !Holds(s', l) {
      ReadPrefix(s.mem, Addr(s, k), |Data(s, k)|, |Data(s', l)|);
    }
  }

  /** Nothing changes at place `l`, save that its bytes may cease to matter. */
  ghost predicate Stays(s: Sys, s': Sys, l: Loc) {
    (ValidLoc(s', l) <==> ValidLoc(s, l)) && (ValidLoc(s, l) ==> Becomes(s, l, s', l))
  }

  /** One buffer moves from place `a` to place `b`. */
  lemma OneMove(s: Sys, s': Sys, a: Loc, b: Loc)
    requires Owned(s) && SamePools(s, s') && s'.mem == s.mem
    requires !ValidLoc(s, b) && !ValidLoc(s', a) && Becomes(s, a, s', b)
    requires forall l :: l != a && l != b ==> Stays(s, s', l)
    ensures Owned(s')
  {
    var to := (l: Loc) => if l == a then b else l;
    var from := (l: Loc) => if l == b then a else l;
    forall l | ValidLoc(s', l) ensures Becomes(s, from(l), s', l) && to(from(l)) == l {
      assert l == b || Stays(s, s', l);
    }
    forall l | ValidLoc(s, l) ensures Becomes(s, l, s', to(l)) {
      assert l == a || Stays(s, s', l);
    }
    MovesKeep(s, s', to, from);
  }

  lemma NoMove(s: Sys, s': Sys)
    requires Owned(s) && SamePools(s, s') && s'.mem == s.mem
    requires forall l :: Stays(s, s', l)
    ensures Owned(s')
  {
    var id := (l: Loc) => l;
    forall l | ValidLoc(s', l) ensures Becomes(s, id(l), s', l) && id(id(l)) == l {
      assert Stays(s, s', l);
    }
    forall l | ValidLoc(s, l) ensures Becomes(s, l, s', id(l)) {
      assert Stays(s, s', l);
    }
    MovesKeep(s, s', id, id);
  }

  /** Writing inside the entry one place owns leaves the bytes of every other place alone. */
  lemma WriteElsewhere(s: Sys, mem: Memory, l0: Loc, addr: nat, f: Frame, l: Loc)
    requires GoodPools(s.pools) && Conserved(s) && ValidLoc(s, l0) && ValidLoc(s, l) && l != l0
    requires InEntry(s, BufAt(s, l0), addr, |f|) && mem == WriteMem(s.mem, addr, f)
    requires Holds(s, l) && Live(s, l)
    ensures ReadMem(mem, Addr(s, l), |Data(s, l)|) == Data(s, l)
  {
    var b, b0 := BufAt(s, l), BufAt(s, l0);
    assert b != b0;
    assert DisjointRanges(s.pools[b0.pool].phys[b0.id], s.pools[b0.pool].entrySize,
                          s.pools[b.pool].phys[b.id], s.pools[b.pool].entrySize);
    ReadElsewhere(s.mem, addr, f, Addr(s, l), |Data(s, l)|);
  }

  /** Place `l` keeps its buffer and the bytes it should hold. */
  ghost predicate KeepsBytes(s: Sys, s': Sys, l: Loc) {
    (ValidLoc(s', l) <==> ValidLoc(s, l))
    && (ValidLoc(s, l) ==> BufAt(s', l) == BufAt(s, l)
                           && (Live(s', l) ==> Live(s, l) && Addr(s', l) == Addr(s, l) && Data(s', l) == Data(s, l)))
  }

  /** A write inside the entry one place owns, after which that place holds its bytes. */
  lemma MemoryWritten(s: Sys, s': Sys, l0: Loc, addr: nat, f: Frame)
    requires GoodPools(s.pools) && Owned(s) && SamePools(s, s') && s'.mem == WriteMem(s.mem, addr, f)
    requires ValidLoc(s, l0) && InEntry(s, BufAt(s, l0), addr, |f|)
    requires ValidLoc(s', l0) && BufAt(s', l0) == BufAt(s, l0) && Holds(s', l0)
    requires forall l :: l != l0 ==> KeepsBytes(s, s', l)
    ensures Owned(s')
  {
    forall l | ValidLoc(s', l) ensures ValidLoc(s, l) && BufAt(s', l) == BufAt(s, l) && Holds(s', l) {
      assert l == l0 || KeepsBytes(s, s', l);
      if l != l0 && Live(s', l) {
        WriteElsewhere(s, s'.mem, l0, addr, f, l);
      }
    }
    forall b | InPools(s', b) ensures exists l :: ValidLoc(s', l) && BufAt(s', l) == b {
      assert InPools(s, b);
      var l :| ValidLoc(s, l) && BufAt(s, l) == b;
      assert l == l0 || KeepsBytes(s, s', l);
      assert ValidLoc(s', l) && BufAt(s', l) == b;
    }
  }
}
