/** Runs that reach the situations the exact theorems speak of: every condition they state is met,
    and missed, by some run of a device as `init` leaves it. */
module Witnesses {
  import opened Results
  import opened RingIndex
  import opened Buffers
  import opened System
  import opened Invariant
  import opened Preservation
  import opened Guarantees
  import opened Isolation
  import opened Calls
  import opened Answers
  import opened Startup
  import QueueSteps
  import opened MemPools
  import T = Transmit
  import R = Receive

  // ---- a device to start from ----

  /** Two pools of `entries` entries each, one behind the other in physical memory from `base` on. */
  function TwoPools(base: nat, entrySize: nat, entries: nat): seq<Pool> {
    var pool := (at: nat) => Pool(entrySize, seq(entries, i requires 0 <= i => at + i * entrySize), seq(entries, i requires 0 <= i => i));
    [pool(base), pool(base + entries * entrySize)]
  }

  lemma TwoPoolsGood(base: nat, entrySize: nat, entries: nat)
    requires entrySize >= HEADROOM
    ensures GoodPools(TwoPools(base, entrySize, entries)) && FreshPools(TwoPools(base, entrySize, entries))
  {
    var pools := TwoPools(base, entrySize, entries);
    forall p, i, p', i' | 0 <= p < 2 && 0 <= i < entries && 0 <= p' < 2 && 0 <= i' < entries && (p != p' || i != i')
      ensures DisjointRanges(pools[p].phys[i], entrySize, pools[p'].phys[i'], entrySize)
    {
      var a := EntryAddress(base, entrySize, entries, p, i);
      var b := EntryAddress(base, entrySize, entries, p', i');
      if a < b { NextEntry(a, b, entrySize); } else { NextEntry(b, a, entrySize); }
    }
  }

  /** The `k`-th entry of the two pools taken together. */
  lemma EntryAddress(base: nat, entrySize: nat, entries: nat, p: nat, i: nat) returns (k: nat)
    requires p < 2 && i < entries
    ensures TwoPools(base, entrySize, entries)[p].phys[i] == base + k * entrySize
    ensures k == if p == 0 then i else entries + i
  {
    k := if p == 0 then i else entries + i;
    assert (entries + i) * entrySize == entries * entrySize + i * entrySize;
  }

  /** A device just initialised over fresh pools. */
  ghost predicate Booted(s: Sys, pools: seq<Pool>, mem: Memory, numRx: nat, numTx: nat, n: nat) {
    GoodPools(pools) && FreshPools(pools) && pools != [] && 1 <= n < 0x8000_0000 && IsPowerOfTwo(n)
    && numRx * n <= |pools[0].phys|
    && Init(Sys(pools, mem, [], [], map[], {}, Idle), 0, numRx, numTx, n) == Up(s)
  }

  lemma BootedIsGood(s: Sys, pools: seq<Pool>, mem: Memory, numRx: nat, numTx: nat, n: nat)
    requires Booted(s, pools, mem, numRx, numTx, n)
    ensures Inv(s) && NothingRecycled(s) && s.op == Idle && s.pkts == map[] && |s.rxs| == numRx && |s.txs| == numTx
    ensures |s.pools| == |pools| && |s.pools[0].free| == |pools[0].free| - numRx * n
    ensures forall p :: 1 <= p < |pools| ==> s.pools[p] == pools[p]
    ensures forall q :: 0 <= q < numTx ==> s.txs[q] == TxQueue(TxStarted(n), None, [], [], 0)
    ensures forall q :: 0 <= q < numRx ==> s.rxs[q].pool == 0 && s.rxs[q].ring.n == n && s.rxs[q].dma == s.rxs[q].delivered == []
  {
    var s0 := Sys(pools, mem, [], [], map[], {}, Idle);
    FreshIsGood(pools, mem);
    InitEstablishes(s0, 0, numRx, numTx, n);
  }

  // ---- sending ----

  /** What one packet of `size` bytes from pool `p`, allocated, sent and rung, changes. */
  ghost predicate SentOne(s: Sys, s': Sys, q: nat, p: nat, size: nat) {
    q < |s.txs| == |s'.txs| && p < |s.pools| == |s'.pools| && s.pools[p].free != []
    && s'.op == Idle && s'.txs[q].ring.n == s.txs[q].ring.n && s'.txs[q].pool == Some(p)
    && |s'.txs[q].ring.inUse| == |s.txs[q].ring.inUse| + 1 && s'.txs[q].wire == s.txs[q].wire && s'.txs[q].written == s.txs[q].written
    && |s'.txs[q].sent| == |s.txs[q].sent| + 1 && |s'.txs[q].sent[|s.txs[q].sent|]| == size
    && |s'.pools[p].free| == |s.pools[p].free| - 1 && (forall p' :: 0 <= p' < |s.pools| && p' != p ==> s'.pools[p'] == s.pools[p'])
    && s'.pkts == s.pkts && s'.rxs == s.rxs
  }

  lemma SendOne(s: Sys, q: nat, p: nat, size: nat) returns (steps: seq<Step>, s': Sys)
    requires Inv(s) && s.op == Idle && q < |s.txs| && p < |s.pools| && s.pools[p].free != []
    requires HEADROOM + size <= s.pools[p].entrySize && |s.txs[q].ring.inUse| < s.txs[q].ring.n - 1
    requires s.txs[q].ring.inUse == [] || s.txs[q].pool == Some(p)
    ensures Run(s, steps, s') && Inv(s') && SentOne(s, s', q, p, size)
  {
    var h := UnusedHandle(s.pkts.Keys);
    var mid := TakePacket(s, p, size, h);
    var rest;
    rest, s' := SendAndRing(mid, q, h);
    RunAppend(s, [Alloc(p, size, h)], mid, rest, s');
    steps := [Alloc(p, size, h)] + rest;
  }

  /** `send` of a packet whose pool matches, up to the write of the tail register. */
  lemma SendAndRing(s: Sys, q: nat, h: nat) returns (steps: seq<Step>, s': Sys)
    requires Inv(s) && s.op == Idle && q < |s.txs| && h in s.pkts && |s.txs[q].ring.inUse| < s.txs[q].ring.n - 1
    requires PoolMatches(s, q, h)
    ensures Run(s, steps, s') && Inv(s') && s'.op == Idle && s'.pools == s.pools && s'.rxs == s.rxs && s'.pkts == s.pkts - {h}
    ensures |s'.txs| == |s.txs|
    ensures var Q, Q', p := s.txs[q], s'.txs[q], s.pkts[h];
      Q'.ring.n == Q.ring.n && Q'.pool == Some(p.pool) && Q'.ring.inUse == Q.ring.inUse + [p.entry]
      && Q'.sent == Q.sent + [p.data] && Q'.wire == Q.wire && Q'.written == Q.written
  {
    CanSendNow(s, q);
    SendKeeps(s, q, h);
    var mid := SendStep(s, q, h).s;
    RunOne(s, Send(q, h), mid);
    DoorbellKeeps(mid);
    s' := NextState(mid, Doorbell).s;
    RunThen(s, [Send(q, h)], mid, Doorbell, s');
    steps := [Send(q, h)] + [Doorbell];
  }

  lemma TakePacket(s: Sys, p: nat, size: nat, h: nat) returns (s': Sys)
    requires Inv(s) && p < |s.pools| && s.pools[p].free != [] && h !in s.pkts && HEADROOM + size <= s.pools[p].entrySize
    ensures Run(s, [Alloc(p, size, h)], s') && Inv(s')
    ensures s'.txs == s.txs && s'.rxs == s.rxs && s'.op == s.op && s'.detached == s.detached
    ensures h in s'.pkts && s'.pkts - {h} == s.pkts && s'.pkts[h].pool == p && |s'.pkts[h].data| == size
    ensures s'.pools == s.pools[p := PopFree(s.pools[p]).0]
  {
    AllocKeeps(s, p, size, h);
    FreeIdsInPool(s, p, |s.pools[p].free| - 1);
    s' := AllocStep(s, p, size, h).s;
    RunOne(s, Alloc(p, size, h), s');
    assert s'.pkts - {h} == s.pkts;
  }

  /** What `k` such packets change. */
  ghost predicate SentMany(s: Sys, s': Sys, q: nat, p: nat, k: nat) {
    q < |s.txs| == |s'.txs| && p < |s.pools| == |s'.pools| && k <= |s.pools[p].free|
    && s'.op == Idle && s'.txs[q].ring.n == s.txs[q].ring.n && s'.txs[q].pool == (if k == 0 then s.txs[q].pool else Some(p))
    && |s'.txs[q].ring.inUse| == |s.txs[q].ring.inUse| + k && |s'.txs[q].sent| == |s.txs[q].sent| + k
    && |s'.pools[p].free| == |s.pools[p].free| - k && (forall p' :: 0 <= p' < |s.pools| && p' != p ==> s'.pools[p'] == s.pools[p'])
    && s'.pkts == s.pkts
  }

  lemma {:induction false} SendMany(s: Sys, q: nat, p: nat, k: nat) returns (steps: seq<Step>, s': Sys)
    requires Inv(s) && s.op == Idle && q < |s.txs| && p < |s.pools| && k <= |s.pools[p].free|
    requires |s.txs[q].ring.inUse| + k <= s.txs[q].ring.n - 1
    requires s.txs[q].ring.inUse == [] || s.txs[q].pool == Some(p)
    ensures Run(s, steps, s') && Inv(s') && SentMany(s, s', q, p, k)
    decreases k
  {
    if k == 0 {
      steps, s' := [], s;
    } else {
      var first, mid := SendOne(s, q, p, 0);
      var rest;
      rest, s' := SendMany(mid, q, p, k - 1);
      RunAppend(s, first, mid, rest, s');
      steps := first + rest;
      OneAndMany(s, mid, s', q, p, k);
    }
  }

  lemma OneAndMany(s: Sys, mid: Sys, s': Sys, q: nat, p: nat, k: nat)
    requires k > 0 && SentOne(s, mid, q, p, 0) && SentMany(mid, s', q, p, k - 1)
    ensures SentMany(s, s', q, p, k)
  {
  }

  // ---- completing ----

  /** The NIC can always bring everything posted to its end. */
  lemma {:induction false} AllCompletes(r: T.TxRing, k: int, w: int, h: int, s: int) returns (nic: seq<T.TxNicStep>)
    requires T.Window(r, k, w, h, s, s)
    ensures T.Window(T.NicRun(r, nic), k, s, s, s, s)
    decreases s - w + (s - h)
  {
    if h < s {
      SlotsDiffer(h, s, r.n);
      T.FetchWindow(r, k, w, h, s, s);
      var rest := AllCompletes(T.NicStep(r, T.Fetch), k, w, h + 1, s);
      nic := [T.Fetch] + rest;
      assert nic[1..] == rest;
    } else if w < s {
      SlotsDiffer(w, s, r.n);
      T.WriteBackWindow(r, k, w, h, s, s, 0, 0);
      var rest := AllCompletes(T.NicStep(r, T.WriteBack(0, 0)), k, w + 1, h, s);
      nic := [T.WriteBack(0, 0)] + rest;
      assert nic[1..] == rest;
    } else {
      nic := [];
    }
  }

  lemma SameWritten(r: T.TxRing, k: int, w: int, h: int, w': int, h': int, s: int)
    requires T.Window(r, k, w, h, s, s) && T.Window(r, k, w', h', s, s)
    ensures w == w'
  {
    if w < w' { SlotsDiffer(w, w', r.n); }
    if w' < w { SlotsDiffer(w', w, r.n); }
  }

  /** Everything sent on queue `q` is completed. */
  lemma CompleteAll(s: Sys, q: nat) returns (steps: seq<Step>, s': Sys)
    requires Inv(s) && s.op == Idle && q < |s.txs|
    ensures Run(s, steps, s') && Inv(s') && s'.op == Idle && s'.pools == s.pools && SameButTx(s, s', q)
    ensures s'.txs[q].ring.n == s.txs[q].ring.n && s'.txs[q].ring.inUse == s.txs[q].ring.inUse
    ensures s'.txs[q].written == |s'.txs[q].sent|
  {
    var Q := s.txs[q];
    assert TxOk(Q, CleanIndex(s, q), Posted(s, q), |s.pools|);
    var nic := AllCompletes(Q.ring, Cleaned(Q), Q.written, |Q.wire|, |Q.sent|);
    steps, s' := NicIsRun(s, q, nic);
    RunKeeps(s, steps, s');
    var Q' := s'.txs[q];
    assert TxOk(Q', CleanIndex(s', q), Posted(s', q), |s'.pools|);
    SameWritten(Q'.ring, Cleaned(Q'), Q'.written, |Q'.wire|, |Q.sent|, |Q.sent|, |Q.sent|);
  }

  // ---- small and large rings ----

  lemma FillAndComplete(s: Sys, pools: seq<Pool>, mem: Memory, n: nat) returns (steps: seq<Step>, s': Sys)
    requires Booted(s, pools, mem, 0, 1, n) && |pools[0].phys| >= n - 1
    ensures Run(s, steps, s') && Inv(s) && Inv(s') && s'.op == Idle && |s'.txs| == 1 && s'.txs[0].ring.n == n
    ensures |s'.txs[0].sent| == n - 1 == s'.txs[0].written && |s'.txs[0].ring.inUse| == n - 1
  {
    BootedIsGood(s, pools, mem, 0, 1, n);
    var first, full := SendMany(s, 0, 0, n - 1);
    var rest;
    rest, s' := CompleteAll(full, 0);
    RunAppend(s, first, full, rest, s');
    steps := first + rest;
  }

  /** On a ring of 2 to 32 slots n-1 packets are sent, the NIC completes them all, and from then on
      the queue is full between any two calls of any run. */
  lemma SmallRingFills(s: Sys, pools: seq<Pool>, mem: Memory, n: nat) returns (steps: seq<Step>, s': Sys)
    requires Booted(s, pools, mem, 0, 1, n) && 2 <= n <= 32 && |pools[0].phys| >= n - 1
    ensures Run(s, steps, s') && |s'.txs| == 1 && |s'.txs[0].sent| == n - 1 == s'.txs[0].written
    ensures forall more, s'' :: Run(s', more, s'') && s''.op == Idle ==>
              |s''.txs| == 1 && T.Shape(s''.txs[0].ring) && !T.CanSend(s''.txs[0].ring)
  {
    BootedIsGood(s, pools, mem, 0, 1, n);
    steps, s' := FillAndComplete(s, pools, mem, n);
    forall more, s'' | Run(s', more, s'') && s''.op == Idle
      ensures |s''.txs| == 1 && T.Shape(s''.txs[0].ring) && !T.CanSend(s''.txs[0].ring)
    {
      StaysFull(s, steps, s', more, s'');
    }
  }

  lemma StaysFull(s: Sys, steps: seq<Step>, s': Sys, more: seq<Step>, s'': Sys)
    requires Inv(s) && NothingRecycled(s) && |s.txs| == 1 && s.txs[0].ring.n <= 32
    requires Run(s, steps, s') && |s'.txs| == 1 && |s'.txs[0].sent| == s.txs[0].ring.n - 1 && Run(s', more, s'') && s''.op == Idle
    ensures |s''.txs| == 1 && T.Shape(s''.txs[0].ring) && !T.CanSend(s''.txs[0].ring)
  {
    RunAppend(s, steps, s', more, s'');
    SmallRingStarves(s, steps + more, s'', 0);
    RunGrows(s', more, s'');
  }

  /** On a ring of 64 slots or more n-1 packets fill the queue, the NIC completes them all, and one
      recycling call makes room for n-32 more. */
  lemma LargeRingCycles(s: Sys, pools: seq<Pool>, mem: Memory, n: nat, nic: nat -> seq<T.TxNicStep>) returns (steps: seq<Step>, s': Sys)
    requires Booted(s, pools, mem, 0, 1, n) && n >= 64 && |pools[0].phys| >= n - 1
    ensures Run(s, steps, s') && s'.op == Idle && |s'.txs| == 1
    ensures |s'.txs[0].sent| == n - 1 && |s'.txs[0].ring.inUse| == 31 && T.Shape(s'.txs[0].ring) && T.CanSend(s'.txs[0].ring)
  {
    var done, more;
    steps, done := FillAndComplete(s, pools, mem, n);
    CanSendNow(done, 0);
    ReachableRecovery(s, steps, done, 0, nic);
    var started := NextState(done, StartRecycle(0)).s;
    RunThen(s, steps, done, StartRecycle(0), started);
    steps := steps + [StartRecycle(0)];
    TxPoolIn(done, 0);
    more, s' := RecycleIsRun(started, nic, 0);
    RunAppend(s, steps, started, more, s');
    steps := steps + more;
  }

  // ---- mixing pools ----

  /** Two packets from two pools are enough to reach a state in which the next `send` mixes them and
      loses a buffer. */
  lemma MixingReached(s: Sys, pools: seq<Pool>, mem: Memory, n: nat) returns (steps: seq<Step>, s': Sys, h: nat)
    requires Booted(s, pools, mem, 0, 1, n) && n >= 4 && |pools| >= 2 && |pools[0].phys| >= 1 && |pools[1].phys| >= 1
    ensures Run(s, steps, s') && Inv(s') && s'.op == Idle && |s'.txs| == 1 && h in s'.pkts && T.CanSend(s'.txs[0].ring)
    ensures !PoolMatches(s', 0, h) && !Conserved(SendStep(s', 0, h).s)
  {
    BootedIsGood(s, pools, mem, 0, 1, n);
    steps, s', h := ForeignPacket(s, 1);
    SendMixesExact(s', 0, h);
  }

  /** `k` packets from pool 0 in flight and one from pool 1 in the client's hands. */
  lemma ForeignPacket(s: Sys, k: nat) returns (steps: seq<Step>, s': Sys, h: nat)
    requires Inv(s) && s.op == Idle && |s.txs| == 1 && s.txs[0].ring.inUse == [] && |s.pools| >= 2
    requires 1 <= k <= |s.pools[0].free| && k < s.txs[0].ring.n - 1 && s.pools[1].free != []
    ensures Run(s, steps, s') && Inv(s') && s'.op == Idle && |s'.txs| == 1 && h in s'.pkts && s'.pkts[h].pool == 1
    ensures |s'.txs[0].ring.inUse| == k && s'.txs[0].pool == Some(0) && T.CanSend(s'.txs[0].ring)
  {
    var sent := s;
    steps, sent := SendMany(s, 0, 0, k);
    h := UnusedHandle(sent.pkts.Keys);
    s' := TakePacket(sent, 1, 0, h);
    RunAppend(s, steps, sent, [Alloc(1, 0, h)], s');
    steps := steps + [Alloc(1, 0, h)];
    CanSendNow(s', 0);
  }

  /** What comes of it: 31 packets of one pool and one of another complete, and the next call of
      `recycle_tx_buffers` puts all their ids on the stack of the newer pool. The ids of the older
      pool are then in no place any more. */
  lemma MixMisroutes(s: Sys, q: nat, h: nat) returns (steps: seq<Step>, s': Sys)
    requires Inv(s) && s.op == Idle && q < |s.txs| && h in s.pkts && T.CanSend(s.txs[q].ring) && !PoolMatches(s, q, h)
    requires |s.txs[q].ring.inUse| >= 31
    ensures SendStep(s, q, h).Next? && Run(SendStep(s, q, h).s, steps, s')
    ensures s.txs[q].pool.Some? && s.txs[q].pool.value < |s.pools| == |s'.pools| && s.pkts[h].pool < |s.pools|
    ensures var from, to, id := s.txs[q].pool.value, s.pkts[h].pool, s.txs[q].ring.inUse[0];
      from != to && id in s'.pools[to].free && s'.pools[from] == s.pools[from]
      && forall l :: ValidLoc(s', l) ==> BufAt(s', l) != Buf(from, id)
  {
    var Q := s.txs[q];
    TxPoolIn(s, q);
    ClientInPool(s, h);
    var sent, freed := s, [];
    sent, steps, s', freed := MixRun(s, q, h);
    assert freed[0] == Q.ring.inUse[0];
    NowhereLeft(s, s', q, h, Q.ring.inUse[0], freed);
  }

  /** The run: the tail register, the NIC, one recycling call. */
  lemma MixRun(s: Sys, q: nat, h: nat) returns (sent: Sys, steps: seq<Step>, s': Sys, freed: seq<nat>)
    requires Inv(s) && s.op == Idle && q < |s.txs| && h in s.pkts && T.CanSend(s.txs[q].ring)
    requires |s.txs[q].ring.inUse| >= 31 && s.pkts[h].pool < |s.pools|
    ensures SendStep(s, q, h) == Next(sent) && Run(sent, steps, s')
    ensures s'.rxs == s.rxs && s'.detached == s.detached && s'.pkts == s.pkts - {h} && |s'.txs| == |s.txs|
    ensures s'.txs[q].pool == Some(s.pkts[h].pool) && forall i :: 0 <= i < |s.txs| && i != q ==> s'.txs[i] == s.txs[i]
    ensures var to := s.pkts[h].pool; s'.pools == s.pools[to := s.pools[to].(free := s.pools[to].free + freed)]
    ensures |freed| >= 32 && freed <= s.txs[q].ring.inUse + [s.pkts[h].entry]
  {
    var rung, done, more;
    sent, rung := MixedSend(s, q, h);
    steps, done := MixCompletes(s, q, h, rung);
    RunAppend(sent, [Doorbell], rung, steps, done);
    steps := [Doorbell] + steps;
    more, s', freed := MixRecycles(done, q, Cleaned(s.txs[q]), |s.txs[q].sent| + 1);
    RunAppend(sent, steps, done, more, s');
    steps := steps + more;
  }

  /** The transmit queue as `send` and the write of the tail register leave it. */
  function AfterSend(Q: TxQueue, p: Packet): TxQueue
    requires T.Shape(Q.ring)
  {
    Q.(ring := T.Ring(T.Post(Q.ring, p.addr, |p.data|, p.entry)), pool := Some(p.pool), sent := Q.sent + [p.data])
  }

  lemma MixedSend(s: Sys, q: nat, h: nat) returns (sent: Sys, rung: Sys)
    requires Inv(s) && s.op == Idle && q < |s.txs| && h in s.pkts && T.CanSend(s.txs[q].ring)
    ensures SendStep(s, q, h) == Next(sent) && Formed(sent) && Run(sent, [Doorbell], rung)
    ensures rung == s.(txs := s.txs[q := AfterSend(s.txs[q], s.pkts[h])], pkts := s.pkts - {h}) && Formed(rung)
  {
    sent := SendStep(s, q, h).s;
    WrapBelow(s.txs[q].ring.tx, s.txs[q].ring.n);
    rung := NextState(sent, Doorbell).s;
    RunOne(sent, Doorbell, rung);
  }

  /** The NIC completes everything on the mixed queue. */
  lemma MixCompletes(s: Sys, q: nat, h: nat, rung: Sys) returns (steps: seq<Step>, done: Sys)
    requires Inv(s) && s.op == Idle && q < |s.txs| && h in s.pkts && T.CanSend(s.txs[q].ring)
    requires rung == s.(txs := s.txs[q := AfterSend(s.txs[q], s.pkts[h])], pkts := s.pkts - {h}) && Formed(rung)
    ensures Run(rung, steps, done) && Formed(done) && done.op == Idle && done.pools == s.pools && SameButTx(rung, done, q)
    ensures var Q, r, S := s.txs[q], done.txs[q].ring, |s.txs[q].sent| + 1;
      r.clean == Q.ring.clean == Cleaned(Q) % r.n && r.inUse == Q.ring.inUse + [s.pkts[h].entry]
      && T.Window(r, Cleaned(Q), S, S, S, S)
  {
    var Q, p, S := s.txs[q], s.pkts[h], |s.txs[q].sent|;
    assert TxOk(Q, CleanIndex(s, q), Posted(s, q), |s.pools|);
    CanSendNow(s, q);
    T.PostWindow(Q.ring, Cleaned(Q), Q.written, |Q.wire|, S, S, p.addr, |p.data|, p.entry);
    T.RingWindow(T.Post(Q.ring, p.addr, |p.data|, p.entry), Cleaned(Q), Q.written, |Q.wire|, S, S + 1);
    var nic := AllCompletes(rung.txs[q].ring, Cleaned(Q), Q.written, |Q.wire|, S + 1);
    steps, done := NicIsRun(rung, q, nic);
  }

  /** A recycling call on a completed queue frees at least the first batch onto the queue's pool. */
  lemma MixRecycles(s: Sys, q: nat, k: int, S: int) returns (steps: seq<Step>, s': Sys, freed: seq<nat>)
    requires Formed(s) && s.op == Idle && q < |s.txs| && s.txs[q].pool.Some? && HasPool(s, q)
    requires T.Window(s.txs[q].ring, k, S, S, S, S) && s.txs[q].ring.clean == k % s.txs[q].ring.n && |s.txs[q].ring.inUse| >= 32
    ensures Run(s, steps, s') && SameButTx(s, s', q) && s'.pools == Freed(s, q, freed)
    ensures 32 <= |freed| <= |s.txs[q].ring.inUse| && freed == s.txs[q].ring.inUse[..|freed|]
  {
    var started, nic := NextState(s, StartRecycle(q)).s, (i: nat) => [];
    var r := s.txs[q].ring;
    RunOne(s, StartRecycle(q), started);
    steps, s' := RecycleIsRun(started, nic, 0);
    RunAppend(s, [StartRecycle(q)], started, steps, s');
    steps := [StartRecycle(q)] + steps;
    var w', h' := T.RecycleExact(r, true, nic, k, S, S, S, S);
    freed := T.Recycle(r, r.clean, true, nic, 0).freed;
  }

  /** Where the ids of the older pool could be, they are not. */
  lemma NowhereLeft(s: Sys, s': Sys, q: nat, h: nat, id: nat, freed: seq<nat>)
    requires Inv(s) && q < |s.txs| == |s'.txs| && h in s.pkts && s.txs[q].pool.Some? && s.txs[q].ring.inUse != []
    requires id == s.txs[q].ring.inUse[0] && s.txs[q].pool.value != s.pkts[h].pool && s.pkts[h].pool < |s.pools|
    requires s'.rxs == s.rxs && s'.detached == s.detached && s'.pkts == s.pkts - {h} && s'.txs[q].pool == Some(s.pkts[h].pool)
    requires forall i :: 0 <= i < |s.txs| && i != q ==> s'.txs[i] == s.txs[i]
    requires var to := s.pkts[h].pool; s'.pools == s.pools[to := s.pools[to].(free := s.pools[to].free + freed)]
    ensures forall l :: ValidLoc(s', l) ==> BufAt(s', l) != Buf(s.txs[q].pool.value, id)
  {
    var Q := s.txs[q];
    var b, place := Buf(Q.pool.value, id), TxFlight(q, Cleaned(Q));
    assert TxOk(Q, CleanIndex(s, q), Posted(s, q), |s.pools|);
    assert ValidLoc(s, place) && BufAt(s, place) == b;
    forall l | ValidLoc(s', l) ensures BufAt(s', l) != b {
      if !(l.TxFlight? && l.q == q) && !(l.Free? && l.p == s.pkts[h].pool) {
        assert ValidLoc(s, l) && BufAt(s, l) == BufAt(s', l) && l != place;
      }
    }
  }

  /** Such a mix is reached from a fresh device. */
  lemma MisroutingReached(s: Sys, pools: seq<Pool>, mem: Memory, n: nat) returns (steps: seq<Step>, s': Sys, h: nat)
    requires Booted(s, pools, mem, 0, 1, n) && n >= 64 && |pools| >= 2 && |pools[0].phys| >= 31 && |pools[1].phys| >= 1
    ensures Run(s, steps, s') && Inv(s') && s'.op == Idle && |s'.txs| == 1 && h in s'.pkts && T.CanSend(s'.txs[0].ring)
    ensures !PoolMatches(s', 0, h) && |s'.txs[0].ring.inUse| >= 31
  {
    BootedIsGood(s, pools, mem, 0, 1, n);
    steps, s', h := ForeignPacket(s, 31);
  }

  // ---- constructing ----

  /** Right after start-up `construct` on a free entry gives one entry two owners. */
  lemma FreeEntryConstructed(s: Sys, pools: seq<Pool>, mem: Memory, n: nat)
    requires Booted(s, pools, mem, 0, 1, n) && |pools[0].phys| >= 1
    ensures Run(s, [], s) && ConstructStep(s, 0, 0, 0, 0).Next? && !Conserved(ConstructStep(s, 0, 0, 0, 0).s)
  {
    BootedIsGood(s, pools, mem, 0, 1, n);
    ConstructDuplicates(s, 0, 0, 0, 0);
  }

  // ---- long frames ----

  /** A frame of 2^15 bytes or more is received cut, in a packet without headroom. */
  lemma LongFrameReceived(s: Sys, pools: seq<Pool>, mem: Memory, n: nat, frame: Frame) returns (steps: seq<Step>, s': Sys)
    requires Booted(s, pools, mem, 1, 0, n) && n >= 2 && |pools[0].phys| > n
    requires 0x8000 <= |frame| < 0x1_0000 && |frame| <= pools[0].entrySize
    ensures Run(s, steps, s') && |s'.rxs| == 1 && s'.rxs[0].dma == [frame]
    ensures |s'.rxs[0].delivered| == 1 && s'.rxs[0].delivered[0] == RxCut(frame) != frame
    ensures 0 in s'.pkts && forall k: nat :: HeadroomInside(s', s'.pkts[0], k) <==> k == 0
  {
    BootedIsGood(s, pools, mem, 1, 0, n);
    var ready;
    steps, ready := FrameArrives(s, frame);
    s' := FirstShown(ready, 0);
    RunAppend(s, steps, ready, [ReceiveIter(0)], s');
    steps := steps + [ReceiveIter(0)];
    CutWhole(frame, 0x8000);
    DeliveredIsCut(s');
    forall k: nat ensures HeadroomInside(s', s'.pkts[0], k) <==> k == 0 {
      ReceivedHeadroom(ready, 0, k);
    }
  }

  lemma DeliveredIsCut(s: Sys)
    requires Inv(s) && |s.rxs| == 1 && |s.rxs[0].delivered| == 1 && |s.rxs[0].dma| == 1
    ensures s.rxs[0].delivered[0] == RxCut(s.rxs[0].dma[0])
  {
    assert RxOk(s.rxs[0], PhaseOf(s.op, 0), s.pools[s.rxs[0].pool].phys);
  }

  /** One receive queue on which nothing has happened yet. */
  ghost predicate Untouched(s: Sys) {
    s.op == Idle && |s.rxs| == 1 && s.rxs[0].dma == [] && s.rxs[0].delivered == [] && s.rxs[0].ring.n >= 2
  }

  /** The same with `frame` in its buffer and `written` frames written back. */
  ghost predicate Arrived(s: Sys, s': Sys, frame: Frame, written: nat) {
    |s.rxs| == |s'.rxs| == 1 && s'.rxs[0].dma == [frame] && s'.rxs[0].delivered == [] && s'.rxs[0].written == written
    && s'.rxs[0].pool == s.rxs[0].pool && s'.rxs[0].ring.n == s.rxs[0].ring.n && s'.pools == s.pools && s'.pkts == s.pkts
  }

  /** A first frame is placed, written back, and a receive call begins. */
  lemma FrameArrives(s: Sys, frame: Frame) returns (steps: seq<Step>, s': Sys)
    requires Inv(s) && Untouched(s) && |frame| <= s.pools[s.rxs[0].pool].entrySize && |frame| < 0x1_0000
    ensures Run(s, steps, s') && Inv(s') && s'.op.Receiving? && s'.op.q == 0 && s'.op.budget == 1 && Arrived(s, s', frame, 1)
  {
    var filled := FirstFilled(s, frame);
    var written := FirstWritten(s, filled, frame);
    RunAppend(s, [RxFill(0, frame)], filled, [RxWriteBack(0, 0)], written);
    steps := [RxFill(0, frame)] + [RxWriteBack(0, 0)];
    SeesDone(written);
    StartReceiveKeeps(written, 0, 1);
    s' := NextState(written, StartReceive(0, 1)).s;
    RunThen(s, steps, written, StartReceive(0, 1), s');
    steps := steps + [StartReceive(0, 1)];
  }

  lemma FirstFilled(s: Sys, frame: Frame) returns (s': Sys)
    requires Inv(s) && Untouched(s) && |frame| <= s.pools[s.rxs[0].pool].entrySize && |frame| < 0x1_0000
    ensures Run(s, [RxFill(0, frame)], s') && Inv(s') && s'.op == Idle && Arrived(s, s', frame, 0)
  {
    RoomForFirst(s.rxs[0], s.pools[s.rxs[0].pool].phys);
    RxFillKeeps(s, 0, frame);
    s' := RxFillStep(s, 0, frame).s;
    RunOne(s, RxFill(0, frame), s');
  }

  lemma FirstWritten(s: Sys, filled: Sys, frame: Frame) returns (s': Sys)
    requires Inv(filled) && filled.op == Idle && Arrived(s, filled, frame, 0) && s.rxs[0].ring.n >= 2
    ensures Run(filled, [RxWriteBack(0, 0)], s') && Inv(s') && s'.op == Idle && Arrived(s, s', frame, 1)
  {
    FirstIsPending(filled.rxs[0], filled.pools[filled.rxs[0].pool].phys);
    RxWriteBackKeeps(filled, 0, 0);
    s' := RxWriteBackStep(filled, 0, 0).s;
    RunOne(filled, RxWriteBack(0, 0), s');
  }

  lemma RoomForFirst(Q: RxQueue, phys: seq<nat>)
    requires RxOk(Q, Between, phys) && Q.dma == [] && Q.ring.n >= 2
    ensures Q.written == 0 && Q.ring.head != Q.ring.tail
  {
    SlotsDiffer(0, Q.ring.n - 1, Q.ring.n);
  }

  lemma FirstIsPending(Q: RxQueue, phys: seq<nat>)
    requires RxOk(Q, Between, phys) && |Q.dma| == 1 && Q.written == 0 && Q.ring.n >= 2
    ensures Q.ring.wb != Q.ring.head
  {
    SlotsDiffer(0, 1, Q.ring.n);
  }

  lemma SeesDone(s: Sys)
    requires Inv(s) && s.op == Idle && |s.rxs| == 1 && |s.rxs[0].delivered| < s.rxs[0].written
    ensures R.CanRecv(s.rxs[0].ring)
  {
    QueueSteps.SeenDone(s.rxs[0], s.rxs[0].ring.rx, 0, s.pools[s.rxs[0].pool].phys);
  }

  /** The first packet is shown to the closure. */
  lemma FirstShown(s: Sys, h: nat) returns (s': Sys)
    requires Inv(s) && s.op.Receiving? && s.op.q == 0 && s.op.budget > 0 && |s.rxs| == 1 && h !in s.pkts
    requires |s.rxs[0].delivered| == 0 && s.rxs[0].written == 1 && s.pools[s.rxs[0].pool].free != []
    ensures ReceiveIterStep(s, h) == Next(s') && Run(s, [ReceiveIter(h)], s') && Inv(s') && h in s'.pkts
    ensures |s'.rxs| == 1 && s'.rxs[0].dma == s.rxs[0].dma && |s'.rxs[0].delivered| == 1
  {
    QueueSteps.SeenDone(s.rxs[0], s.op.rx, s.op.last, s.pools[s.rxs[0].pool].phys);
    ReceiveIterKeeps(s, h);
    s' := ReceiveIterStep(s, h).s;
    RunOne(s, ReceiveIter(h), s');
  }

  /** A packet of 2^16 bytes or more goes out cut. */
  lemma LongPacketSent(s: Sys, pools: seq<Pool>, mem: Memory, n: nat, size: nat) returns (steps: seq<Step>, s': Sys)
    requires Booted(s, pools, mem, 0, 1, n) && n >= 2 && |pools[0].phys| >= 1
    requires size >= 0x1_0000 && HEADROOM + size <= pools[0].entrySize
    ensures Run(s, steps, s') && |s'.txs| == 1 && |s'.txs[0].sent| == |s'.txs[0].wire| == 1 && |s'.txs[0].sent[0]| == size
    ensures s'.txs[0].wire[0] == TxCut(s'.txs[0].sent[0]) != s'.txs[0].sent[0]
  {
    BootedIsGood(s, pools, mem, 0, 1, n);
    var sent, more;
    steps, sent := SendOne(s, 0, 0, size);
    more, s' := FetchFirst(sent);
    RunAppend(s, steps, sent, more, s');
    steps := steps + more;
    CutWhole(s'.txs[0].sent[0], 0x1_0000);
    TransmitFifo(s, steps, s', 0);
  }

  lemma FetchFirst(s: Sys) returns (steps: seq<Step>, s': Sys)
    requires Inv(s) && s.op == Idle && |s.txs| == 1 && |s.txs[0].sent| == 1 && s.txs[0].wire == [] && s.txs[0].ring.n >= 2
    ensures Run(s, steps, s') && |s'.txs| == 1 && s'.txs[0].sent == s.txs[0].sent && |s'.txs[0].wire| == 1
  {
    var Q := s.txs[0];
    assert TxOk(Q, CleanIndex(s, 0), Posted(s, 0), |s.pools|);
    SlotsDiffer(0, 1, Q.ring.n);
    s' := TxFetchStep(s, 0).s;
    steps := [TxFetch(0)];
    RunOne(s, TxFetch(0), s');
  }
}
