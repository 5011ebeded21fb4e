/** Whole calls as runs of the step system: what the call specifications of the two rings say
    is what the steps do. */
module Calls {
  import opened Results
  import opened RingIndex
  import opened Buffers
  import opened System
  import opened Invariant
  import opened QueueSteps
  import opened Preservation
  import T = Transmit
  import R = Receive

  lemma {:induction false} RunAppend(s: Sys, first: seq<Step>, mid: Sys, rest: seq<Step>, s': Sys)
    requires Run(s, first, mid) && Run(mid, rest, s')
    ensures Run(s, first + rest, s')
    decreases |first|
  {
    if first == [] {
      assert first + rest == rest;
    } else {
      FirstStep(first, rest);
      RunAppend(NextState(s, first[0]).s, first[1..], mid, rest, s');
    }
  }

  lemma FirstStep(first: seq<Step>, rest: seq<Step>)
    requires first != []
    ensures (first + rest)[0] == first[0] && (first + rest)[1..] == first[1..] + rest
  {
  }

  lemma RunOne(s: Sys, step: Step, s': Sys)
    requires Formed(s) && Allowed(s, step) && NextState(s, step) == Next(s')
    ensures Run(s, [step], s')
  {
    assert [step][1..] == [];
    assert Run(s', [], s');
  }

  /** One more step after a run. */
  lemma RunThen(s: Sys, run: seq<Step>, mid: Sys, step: Step, s': Sys)
    requires Run(s, run, mid) && Formed(mid) && Allowed(mid, step) && NextState(mid, step) == Next(s')
    ensures Run(s, run + [step], s')
  {
    RunOne(mid, step, s');
    RunAppend(s, run, mid, [step], s');
  }

  // ---- transmit calls ----

  /** Outside transmit queue `q` and the pools the two states agree. */
  ghost predicate SameButTx(s: Sys, s': Sys, q: nat) {
    s'.rxs == s.rxs && s'.pkts == s.pkts && s'.detached == s.detached && s'.mem == s.mem
    && q < |s.txs| == |s'.txs| && s'.txs[q].pool == s.txs[q].pool && s'.txs[q].sent == s.txs[q].sent
    && (forall i :: 0 <= i < |s.txs| && i != q ==> s'.txs[i] == s.txs[i])
  }

  /** Some ids on the stack of the queue's pool. */
  function Freed(s: Sys, q: nat, ids: seq<nat>): seq<Pool>
    requires q < |s.txs|
  {
    var pool := s.txs[q].pool;
    if pool.Some? && pool.value < |s.pools| then
      s.pools[pool.value := s.pools[pool.value].(free := s.pools[pool.value].free + ids)]
    else s.pools
  }

  lemma NicStepIsRun(s: Sys, q: nat, nic: T.TxNicStep) returns (steps: seq<Step>, s': Sys)
    requires Formed(s) && q < |s.txs|
    ensures Run(s, steps, s') && Formed(s') && s'.op == s.op && s'.pools == s.pools && SameButTx(s, s', q)
    ensures s'.txs[q].ring == T.NicStep(s.txs[q].ring, nic)
  {
    var step := match nic case Fetch => TxFetch(q) case WriteBack(a, l) => TxWriteBack(q, a, l);
    steps, s' := [], s;
    T.NicStepShape(s.txs[q].ring, nic);
    if NextState(s, step).Next? {
      steps, s' := [step], NextState(s, step).s;
      RunOne(s, step, s');
    }
  }

  /** A stretch of NIC activity on one ring is a run of NIC steps. */
  lemma {:induction false} NicIsRun(s: Sys, q: nat, nic: seq<T.TxNicStep>) returns (steps: seq<Step>, s': Sys)
    requires Formed(s) && q < |s.txs|
    ensures Run(s, steps, s') && Formed(s') && s'.op == s.op && s'.pools == s.pools && SameButTx(s, s', q)
    ensures s'.txs[q].ring == T.NicRun(s.txs[q].ring, nic)
    decreases |nic|
  {
    if nic == [] {
      steps, s' := [], s;
    } else {
      var first, mid := NicStepIsRun(s, q, nic[0]);
      var rest;
      rest, s' := NicIsRun(mid, q, nic[1..]);
      RunAppend(s, first, mid, rest, s');
      steps := first + rest;
    }
  }

  /** The queue's pool, if it has one, exists. */
  predicate HasPool(s: Sys, q: nat)
    requires q < |s.txs|
  {
    s.txs[q].pool.Some? ==> s.txs[q].pool.value < |s.pools|
  }

  /** One pass of the recycling loop, after some NIC activity, is a run. */
  lemma RecyclePassIsRun(s: Sys, nic: seq<T.TxNicStep>) returns (steps: seq<Step>, s': Sys)
    requires Formed(s) && s.op.Recycling? && HasPool(s, s.op.q)
    ensures Run(s, steps, s') && Formed(s') && SameButTx(s, s', s.op.q)
    ensures var q, clean, has := s.op.q, s.op.clean, s.txs[s.op.q].pool.Some?;
      var r' := T.NicRun(s.txs[q].ring, nic);
      if T.BatchReady(r', clean) then
        s'.op == Recycling(q, WrapRing(T.BatchEnd(r', clean), r'.n)) && s'.txs[q].ring == T.AfterBatch(r', has)
        && s'.pools == Freed(s, q, T.Drained(r', has))
      else s'.op == Idle && s'.txs[q].ring == r'.(clean := clean) && s'.pools == s.pools
  {
    var q, clean := s.op.q, s.op.clean;
    var mid;
    steps, mid := NicIsRun(s, q, nic);
    s' := RecycleIterStep(mid).s;
    if T.BatchReady(mid.txs[q].ring, clean) {
      T.BatchAdvances(mid.txs[q].ring, clean, mid.txs[q].pool.Some?);
    }
    RunThen(s, steps, mid, RecycleIter, s');
    steps := steps + [RecycleIter];
  }

  /** What a whole call leaves of the system: the ring `out.ring`, its ids freed onto the queue's
      pool, and everything else as it was. */
  ghost predicate Recycled(s: Sys, q: nat, out: T.Recycled, s': Sys) {
    SameButTx(s, s', q) && s'.op == Idle && s'.txs[q].ring == out.ring && s'.pools == Freed(s, q, out.freed)
  }

  /** One whole call of `recycle_tx_buffers`, with the NIC active before every status read, is a
      run that leaves the ring as the call's specification says and its ids on the stack of the
      queue's pool in the order it lists them, and touches nothing else. */
  lemma {:induction false} RecycleIsRun(s: Sys, nic: nat -> seq<T.TxNicStep>, j: nat) returns (steps: seq<Step>, s': Sys)
    requires Formed(s) && s.op.Recycling? && HasPool(s, s.op.q)
    ensures Run(s, steps, s') && Formed(s') && (Inv(s) ==> Inv(s'))
    ensures var q := s.op.q;
      Recycled(s, q, T.Recycle(s.txs[q].ring, s.op.clean, s.txs[q].pool.Some?, nic, j), s')
    decreases T.Cleanable(s.txs[s.op.q].ring, s.op.clean)
  {
    var q, clean, has := s.op.q, s.op.clean, s.txs[s.op.q].pool.Some?;
    var ring := s.txs[q].ring;
    var mid;
    steps, mid := RecyclePassIsRun(s, nic(j));
    s' := mid;
    if T.BatchReady(T.NicRun(ring, nic(j)), clean) {
      T.RecycleUnfolds(ring, clean, has, nic, j);
      var rest;
      rest, s' := RecycleIsRun(mid, nic, j + 1);
      RunAppend(s, steps, mid, rest, s');
      steps := steps + rest;
      var out := T.Recycle(mid.txs[q].ring, mid.op.clean, has, nic, j + 1);
      JoinFreed(s, mid, q, T.Drained(T.NicRun(ring, nic(j)), has), out.freed);
    } else {
      JoinFreed(s, s, q, [], []);
    }
    if Inv(s) {
      RunKeeps(s, steps, s');
    }
  }

  lemma JoinFreed(s: Sys, mid: Sys, q: nat, first: seq<nat>, rest: seq<nat>)
    requires q < |s.txs| == |mid.txs| && HasPool(s, q) && mid.txs[q].pool == s.txs[q].pool
    requires mid.pools == Freed(s, q, first) || (mid == s && first == [])
    ensures Freed(mid, q, rest) == Freed(s, q, first + rest)
    ensures Freed(s, q, []) == s.pools
  {
    if s.txs[q].pool.Some? {
      var p := s.txs[q].pool.value;
      Regroup(s.pools[p].free, first, rest);
      assert s.pools[p].free + [] == s.pools[p].free;
      assert s.pools[p := s.pools[p]] == s.pools;
    }
  }

  // ---- the receiving NIC ----

  /** `frames` is the stream of frames for the queue: the NIC has placed the first of them, and all
      fit an entry and the length field. */
  ghost predicate Stream(Q: RxQueue, frames: nat -> Frame, entrySize: nat) {
    (forall c: nat :: |frames(c)| <= entrySize && |frames(c)| < 0x1_0000)
    && (forall c :: 0 <= c < |Q.dma| ==> frames(c) == Q.dma[c])
  }

  /** Outside receive queue `q` and memory the two states agree, and the queue differs only by what
      the NIC has done to it. */
  ghost predicate SameButRxNic(s: Sys, s': Sys, q: nat) {
    s'.txs == s.txs && s'.pkts == s.pkts && s'.detached == s.detached && s'.pools == s.pools && s'.op == s.op
    && q < |s.rxs| == |s'.rxs| && (forall i :: 0 <= i < |s.rxs| && i != q ==> s'.rxs[i] == s.rxs[i])
    && s'.rxs[q].pool == s.rxs[q].pool && s'.rxs[q].delivered == s.rxs[q].delivered
  }

  /** What one NIC action leaves. */
  ghost predicate NicDoneOnce(s: Sys, s': Sys, q: nat, nic: R.RxNicStep, frames: nat -> Frame)
    requires Formed(s) && q < |s.rxs|
  {
    SameButRxNic(s, s', q) && s'.rxs[q].ring == R.NicStep(s.rxs[q].ring, nic)
    && s'.rxs[q].written == R.WrittenOnce(s.rxs[q].ring, nic, s.rxs[q].written)
    && Stream(s'.rxs[q], frames, s.pools[s.rxs[q].pool].entrySize)
  }

  lemma FillIsRun(s: Sys, q: nat, frames: nat -> Frame) returns (steps: seq<Step>, s': Sys)
    requires Inv(s) && q < |s.rxs| && Stream(s.rxs[q], frames, s.pools[s.rxs[q].pool].entrySize)
    ensures Run(s, steps, s') && Inv(s') && NicDoneOnce(s, s', q, R.Filled, frames)
  {
    steps, s' := [], s;
    if s.rxs[q].ring.head != s.rxs[q].ring.tail {
      var f := frames(|s.rxs[q].dma|);
      s' := RxFillStep(s, q, f).s;
      RxFillKeeps(s, q, f);
      RunOne(s, RxFill(q, f), s');
      steps := [RxFill(q, f)];
    }
  }

  lemma WriteBackIsRun(s: Sys, q: nat, len: nat, junk: nat, frames: nat -> Frame) returns (steps: seq<Step>, s': Sys)
    requires Inv(s) && q < |s.rxs| && Stream(s.rxs[q], frames, s.pools[s.rxs[q].pool].entrySize)
    requires s.rxs[q].ring.wb != s.rxs[q].ring.head ==> len == |frames(s.rxs[q].written)|
    ensures Run(s, steps, s') && Inv(s') && NicDoneOnce(s, s', q, R.WrittenBack(len, junk), frames)
  {
    steps, s' := [], s;
    if s.rxs[q].ring.wb != s.rxs[q].ring.head {
      WrittenBelowFilled(s.rxs[q], PhaseOf(s.op, q), s.pools[s.rxs[q].pool].phys);
      s' := WriteBackResult(s, q, len, junk, frames);
      RxWriteBackKeeps(s, q, junk);
      RunOne(s, RxWriteBack(q, junk), s');
      steps := [RxWriteBack(q, junk)];
    }
  }

  lemma WriteBackResult(s: Sys, q: nat, len: nat, junk: nat, frames: nat -> Frame) returns (s': Sys)
    requires Formed(s) && q < |s.rxs| && s.rxs[q].ring.wb != s.rxs[q].ring.head && s.rxs[q].written < |s.rxs[q].dma|
    requires Stream(s.rxs[q], frames, s.pools[s.rxs[q].pool].entrySize) && len == |frames(s.rxs[q].written)|
    ensures RxWriteBackStep(s, q, junk) == Next(s') && NicDoneOnce(s, s', q, R.WrittenBack(len, junk), frames)
  {
    s' := RxWriteBackStep(s, q, junk).s;
  }

  lemma WrittenBelowFilled(Q: RxQueue, ph: RxPhase, phys: seq<nat>)
    requires RxOk(Q, ph, phys) && Q.ring.wb != Q.ring.head
    ensures Q.written < |Q.dma|
  {
  }

  /** What a stretch of NIC activity on a receive ring leaves. */
  ghost predicate NicDone(s: Sys, s': Sys, q: nat, nic: seq<R.RxNicStep>, frames: nat -> Frame)
    requires Formed(s) && q < |s.rxs|
  {
    SameButRxNic(s, s', q) && s'.rxs[q].ring == R.NicRun(s.rxs[q].ring, nic)
    && s'.rxs[q].written == R.WrittenAfter(s.rxs[q].ring, nic, s.rxs[q].written)
    && Stream(s'.rxs[q], frames, s.pools[s.rxs[q].pool].entrySize)
  }

  /** A stretch of activity of an honest NIC is a run of NIC steps. */
  lemma {:induction false} RxNicIsRun(s: Sys, q: nat, nic: seq<R.RxNicStep>, frames: nat -> Frame) returns (steps: seq<Step>, s': Sys)
    requires Inv(s) && q < |s.rxs| && Stream(s.rxs[q], frames, s.pools[s.rxs[q].pool].entrySize)
    requires R.Honest(s.rxs[q].ring, nic, frames, s.rxs[q].written)
    ensures Run(s, steps, s') && Inv(s') && NicDone(s, s', q, nic, frames)
    decreases |nic|
  {
    if nic == [] {
      steps, s' := [], s;
    } else {
      R.NicStepShape(s.rxs[q].ring, nic[0]);
      var first, mid, rest;
      match nic[0] {
        case Filled => first, mid := FillIsRun(s, q, frames);
        case WrittenBack(len, junk) => first, mid := WriteBackIsRun(s, q, len, junk, frames);
      }
      rest, s' := RxNicIsRun(mid, q, nic[1..], frames);
      RunAppend(s, first, mid, rest, s');
      steps := first + rest;
    }
  }

  // ---- the client in the closure ----

  /** The client has the entry: in a packet, or detached. */
  ghost predicate ClientHas(s: Sys, p: nat, id: nat) {
    Buf(p, id) in s.detached || exists h :: h in s.pkts && s.pkts[h].pool == p && s.pkts[h].entry == id
  }

  ghost predicate Has(s: Sys, p: nat, h: Holding) {
    p < |s.pools| && s.pools[p] == h.pool && forall id :: id in h.mine ==> ClientHas(s, p, id)
  }

  /** Only the client's packets, memory and pool `p` differ. */
  ghost predicate SameButClient(s: Sys, s': Sys, p: nat) {
    s'.rxs == s.rxs && s'.txs == s.txs && s'.op == s.op && p < |s.pools| && |s'.pools| == |s.pools|
    && s'.pools == s.pools[p := s'.pools[p]]
  }

  lemma {:induction false} UnusedHandle(taken: set<nat>) returns (h: nat)
    ensures forall k :: k in taken ==> k < h
  {
    h := 0;
    if taken != {} {
      var k :| k in taken;
      var rest := taken - {k};
      h := UnusedHandle(rest);
      h := if k < h then h else k + 1;
      assert forall x :: x in taken && x != k ==> x in rest;
    }
  }

  /** Taking an entry is an allocation. */
  lemma GrabIsRun(s: Sys, p: nat, hold: Holding) returns (steps: seq<Step>, s': Sys)
    requires Inv(s) && Has(s, p, hold)
    ensures Run(s, steps, s') && Inv(s') && SameButClient(s, s', p) && Has(s', p, HoldOnce(hold, Grab))
  {
    steps, s' := [], s;
    if s.pools[p].free != [] {
      var h := UnusedHandle(s.pkts.Keys);
      AllocKeeps(s, p, 0, h);
      FreeIdsInPool(s, p, |s.pools[p].free| - 1);
      steps, s' := [Alloc(p, 0, h)], AllocStep(s, p, 0, h).s;
      RunOne(s, Alloc(p, 0, h), s');
      var hold' := HoldOnce(hold, Grab);
      forall id | id in hold'.mine ensures ClientHas(s', p, id) {
        if id == s'.pkts[h].entry {
          assert h in s'.pkts;
        } else {
          StillHas(s, s', p, id, h);
        }
      }
    }
  }

  lemma StillHas(s: Sys, s': Sys, p: nat, id: nat, h: nat)
    requires ClientHas(s, p, id) && s'.detached == s.detached
    requires forall k :: k in s.pkts && k != h ==> k in s'.pkts && s'.pkts[k] == s.pkts[k]
    requires h in s.pkts ==> s.pkts[h].pool != p || s.pkts[h].entry != id
    ensures ClientHas(s', p, id)
  {
    if Buf(p, id) !in s.detached {
      var k :| k in s.pkts && s.pkts[k].pool == p && s.pkts[k].entry == id;
      assert k != h && k in s'.pkts && s'.pkts[k] == s.pkts[k];
    }
  }

  /** Dropping a packet gives its entry back. */
  lemma DropIsRun(s: Sys, p: nat, hold: Holding, h: nat) returns (s': Sys)
    requires Inv(s) && h in s.pkts && s.pkts[h].pool == p && p < |s.pools| && s.pools[p] == hold.pool
    requires forall id :: id in hold.mine && id != s.pkts[h].entry ==> ClientHas(s, p, id)
    ensures Run(s, [Drop(h)], s') && Inv(s') && SameButClient(s, s', p) && Has(s', p, HoldOnce(hold, Return(s.pkts[h].entry)))
  {
    DropKeeps(s, h);
    s' := DropPacket(s, h).s;
    RunOne(s, Drop(h), s');
    var hold' := HoldOnce(hold, Return(s.pkts[h].entry));
    forall id | id in hold'.mine ensures ClientHas(s', p, id) {
      StillHas(s, s', p, id, h);
    }
  }

  /** Giving an entry back is dropping a packet, made from the entry first if it was detached. */
  lemma ReturnIsRun(s: Sys, p: nat, hold: Holding, id: nat) returns (steps: seq<Step>, s': Sys)
    requires Inv(s) && Has(s, p, hold) && id in hold.mine
    ensures Run(s, steps, s') && Inv(s') && SameButClient(s, s', p) && Has(s', p, HoldOnce(hold, Return(id)))
  {
    if Buf(p, id) in s.detached {
      var h := UnusedHandle(s.pkts.Keys);
      var mid := ConstructForDrop(s, p, hold, id, h);
      s' := DropIsRun(mid, p, hold, h);
      RunAppend(s, [Construct(p, id, 0, h)], mid, [Drop(h)], s');
      steps := [Construct(p, id, 0, h)] + [Drop(h)];
    } else {
      var h :| h in s.pkts && s.pkts[h].pool == p && s.pkts[h].entry == id;
      s' := DropIsRun(s, p, hold, h);
      steps := [Drop(h)];
    }
  }

  lemma ConstructForDrop(s: Sys, p: nat, hold: Holding, id: nat, h: nat) returns (mid: Sys)
    requires Inv(s) && Has(s, p, hold) && Buf(p, id) in s.detached && h !in s.pkts
    ensures Run(s, [Construct(p, id, 0, h)], mid) && Inv(mid) && SameButClient(s, mid, p) && mid.pools == s.pools
    ensures h in mid.pkts && mid.pkts[h].pool == p && mid.pkts[h].entry == id
    ensures forall other :: other in hold.mine && other != id ==> ClientHas(mid, p, other)
  {
    ConstructKeeps(s, p, id, 0, h);
    assert ValidLoc(s, Detached(Buf(p, id))) && InPools(s, BufAt(s, Detached(Buf(p, id))));
    mid := ConstructStep(s, p, id, 0, h).s;
    RunOne(s, Construct(p, id, 0, h), mid);
    forall other | other in hold.mine && other != id ensures ClientHas(mid, p, other) {
      if Buf(p, other) in s.detached {
        assert Buf(p, other) in mid.detached;
      } else {
        var k :| k in s.pkts && s.pkts[k].pool == p && s.pkts[k].entry == other;
        assert k in mid.pkts && mid.pkts[k] == s.pkts[k];
      }
    }
  }

  /** What the closure does with the pool is a run of client steps. */
  lemma {:induction false} UsesAreRun(s: Sys, p: nat, hold: Holding, uses: seq<PoolUse>) returns (steps: seq<Step>, s': Sys)
    requires Inv(s) && Has(s, p, hold) && OwnsAll(hold, uses)
    ensures Run(s, steps, s') && Inv(s') && SameButClient(s, s', p) && Has(s', p, HoldAll(hold, uses))
    decreases |uses|
  {
    if uses == [] {
      steps, s' := [], s;
    } else {
      var first, mid := UseIsRun(s, p, hold, uses[0]);
      var rest;
      rest, s' := UsesAreRun(mid, p, HoldOnce(hold, uses[0]), uses[1..]);
      RunAppend(s, first, mid, rest, s');
      steps := first + rest;
    }
  }

  lemma UseIsRun(s: Sys, p: nat, hold: Holding, use: PoolUse) returns (steps: seq<Step>, s': Sys)
    requires Inv(s) && Has(s, p, hold) && (use.Return? ==> use.id in hold.mine)
    ensures Run(s, steps, s') && Inv(s') && SameButClient(s, s', p) && Has(s', p, HoldOnce(hold, use))
  {
    match use {
      case Grab => steps, s' := GrabIsRun(s, p, hold);
      case Return(id) => steps, s' := ReturnIsRun(s, p, hold, id);
    }
  }

  // ---- receive calls ----

  /** The counter that stands for slot `i` of a receive ring. */
  lemma SlotCounter(s: Sys, q: nat, i: nat) returns (l: Loc)
    requires Inv(s) && q < |s.rxs| && i < s.rxs[q].ring.n
    ensures ValidLoc(s, l) && l.RxSlot? && l.q == q && l.c % s.rxs[q].ring.n == i
    ensures BufAt(s, l) == Buf(s.rxs[q].pool, s.rxs[q].ring.inUse[i])
  {
    var d := |s.rxs[q].delivered|;
    var c := InRingCounter(i, d, d, s.rxs[q].ring.n);
    l := RxSlot(q, c);
  }

  lemma ClientPlace(s: Sys, p: nat, id: nat) returns (l: Loc)
    requires ClientHas(s, p, id)
    ensures ValidLoc(s, l) && (l.Client? || l.Detached?) && BufAt(s, l) == Buf(p, id)
  {
    if Buf(p, id) in s.detached {
      l := Detached(Buf(p, id));
    } else {
      var h :| h in s.pkts && s.pkts[h].pool == p && s.pkts[h].entry == id;
      l := Client(h);
    }
  }

  lemma SameBuffer(s: Sys, l: Loc, l': Loc)
    requires Inv(s) && ValidLoc(s, l) && ValidLoc(s, l')
    ensures InPools(s, BufAt(s, l)) && (BufAt(s, l) == BufAt(s, l') ==> l == l')
  {
  }

  /** In every reachable state the ring's ids, the free ids of its pool and the client's are all
      different entries of the pool. */
  lemma RingIsExclusive(s: Sys, q: nat, hold: Holding)
    requires Inv(s) && q < |s.rxs| && Has(s, s.rxs[q].pool, hold)
    ensures Exclusive(hold, s.rxs[q].ring.inUse)
  {
    var p, Q := s.rxs[q].pool, s.rxs[q];
    var free := s.pools[p].free;
    forall i, j | 0 <= i < j < |free| ensures free[i] != free[j] {
      SameBuffer(s, Free(p, i), Free(p, j));
    }
    forall i | 0 <= i < |free| ensures free[i] < |s.pools[p].phys| && free[i] !in hold.mine {
      SameBuffer(s, Free(p, i), Free(p, i));
      if free[i] in hold.mine {
        var l := ClientPlace(s, p, free[i]);
        SameBuffer(s, Free(p, i), l);
      }
    }
    forall id | id in hold.mine ensures id < |s.pools[p].phys| {
      var l := ClientPlace(s, p, id);
      SameBuffer(s, l, l);
    }
    forall i | 0 <= i < |Q.ring.inUse|
      ensures Q.ring.inUse[i] < |s.pools[p].phys| && Q.ring.inUse[i] !in free && Q.ring.inUse[i] !in hold.mine
    {
      RingIdApart(s, q, i, hold);
    }
    forall i, j | 0 <= i < j < |Q.ring.inUse| ensures Q.ring.inUse[i] != Q.ring.inUse[j] {
      var l := SlotCounter(s, q, i);
      var l' := SlotCounter(s, q, j);
      SameBuffer(s, l, l');
    }
  }

  lemma RingIdApart(s: Sys, q: nat, i: nat, hold: Holding)
    requires Inv(s) && q < |s.rxs| && Has(s, s.rxs[q].pool, hold) && i < s.rxs[q].ring.n
    ensures var id, pool := s.rxs[q].ring.inUse[i], hold.pool;
      id < |pool.phys| && id !in pool.free && id !in hold.mine
  {
    var id, p := s.rxs[q].ring.inUse[i], s.rxs[q].pool;
    var l := SlotCounter(s, q, i);
    SameBuffer(s, l, l);
    forall k | 0 <= k < |s.pools[p].free| ensures id != s.pools[p].free[k] {
      SameBuffer(s, l, Free(p, k));
    }
    if id in hold.mine {
      var l' := ClientPlace(s, p, id);
      SameBuffer(s, l, l');
    }
  }

  /** The driver is at the top of the receive loop on queue `q`, with the given values. */
  ghost predicate AtPass(s: Sys, q: nat, ring: R.RxRing, hold: Holding, budget: nat, rx: nat, last: nat) {
    q < |s.rxs| && s.op == Receiving(q, budget, rx, last) && s.rxs[q].ring == ring && Has(s, s.rxs[q].pool, hold)
  }

  /** The logs of a delivering pass: one frame more, of the length shown. */
  ghost predicate OneDelivered(Q: RxQueue, Q': RxQueue, len: nat) {
    Q'.pool == Q.pool && Q'.dma == Q.dma && Q'.written == Q.written
    && |Q'.delivered| == |Q.delivered| + 1 && Q.delivered <= Q'.delivered && |Q'.delivered[|Q.delivered|]| == len
  }

  /** One delivering pass of the receive loop is the step that shows the packet, what the closure
      does with the pool, and the step that arms the slot again. */
  lemma PassIsRun(s: Sys, q: nat, ring: R.RxRing, hold: Holding, budget: nat, rx: nat, last: nat, f: R.Closure, j: nat)
    returns (steps: seq<Step>, s': Sys)
    requires Inv(s) && AtPass(s, q, ring, hold, budget, rx, last) && budget > 0 && R.LawfulPass(ring, hold, rx, f, j)
    requires R.OnePass(ring, hold.pool, rx, f, j).Deliver?
    ensures Run(s, steps, s') && Inv(s')
    ensures var pass := R.OnePass(ring, hold.pool, rx, f, j);
      AtPass(s', q, pass.ring, R.HoldAfter(hold, ring, rx, f, j), budget - 1, WrapRing(rx, ring.n), rx)
      && R.HoldAfter(hold, ring, rx, f, j).pool == pass.pool
      && |s'.rxs| == |s.rxs| && OneDelivered(s.rxs[q], s'.rxs[q], pass.given.1)
      && s'.txs == s.txs && s'.pools == s.pools[s.rxs[q].pool := pass.pool]
  {
    var mid;
    PassParts(ring, hold, rx, f, j);
    steps, mid := ClosureIsRun(s, q, ring, hold, budget, rx, last, f, j);
    s' := RearmIsRun(mid, q, R.HoldAfter(hold, ring, rx, f, j));
    RunAppend(s, steps, mid, [CallbackReturn], s');
    steps := steps + [CallbackReturn];
  }

  /** The packet is shown and the closure does what it likes with the pool. */
  lemma ClosureIsRun(s: Sys, q: nat, ring: R.RxRing, hold: Holding, budget: nat, rx: nat, last: nat, f: R.Closure, j: nat)
    returns (steps: seq<Step>, mid: Sys)
    requires Inv(s) && AtPass(s, q, ring, hold, budget, rx, last) && budget > 0 && R.LawfulPass(ring, hold, rx, f, j)
    requires ring.descs[rx].done && ring.descs[rx].eop && hold.pool.free != []
    ensures Run(s, steps, mid) && Inv(mid) && |mid.rxs| == |s.rxs| && mid.op == InCallback(q, budget - 1, rx, last) && mid.txs == s.txs
    ensures mid.rxs[q].ring == R.Take(ring, rx, PopFree(hold.pool).1)
    ensures OneDelivered(s.rxs[q], mid.rxs[q], R.SeenLength(ring.descs[rx]))
    ensures Has(mid, s.rxs[q].pool, R.HoldAfter(hold, ring, rx, f, j))
    ensures mid.pools == s.pools[s.rxs[q].pool := R.HoldAfter(hold, ring, rx, f, j).pool]
  {
    var h := UnusedHandle(s.pkts.Keys);
    var shown := ShowIsRun(s, q, ring, hold, budget, rx, last, h);
    steps, mid := UsesAreRun(shown, s.rxs[q].pool, R.HandOver(hold, ring, rx), f(j, ring.inUse[rx]));
    RunAppend(s, [ReceiveIter(h)], shown, steps, mid);
    steps := [ReceiveIter(h)] + steps;
  }

  /** The parts a delivering pass is put together from. */
  lemma PassParts(ring: R.RxRing, hold: Holding, rx: nat, f: R.Closure, j: nat)
    requires R.Shape(ring) && rx < ring.n && R.OnePass(ring, hold.pool, rx, f, j).Deliver?
    ensures ring.descs[rx].done && ring.descs[rx].eop && hold.pool.free != []
    ensures var pass, taken, hold' := R.OnePass(ring, hold.pool, rx, f, j), R.Take(ring, rx, PopFree(hold.pool).1),
                                      R.HoldAfter(hold, ring, rx, f, j);
      taken.inUse[rx] < |hold.pool.phys| && pass.ring == R.Rearm(taken, rx, hold.pool.phys[taken.inUse[rx]])
      && pass.ring.n == ring.n && pass.given.1 == R.SeenLength(ring.descs[rx])
      && hold'.pool == pass.pool && hold'.pool.phys == hold.pool.phys && hold'.pool.entrySize == hold.pool.entrySize
  {
    UseIsHold(R.HandOver(hold, ring, rx), f(j, ring.inUse[rx]));
    HoldKeepsEntries(R.HandOver(hold, ring, rx), f(j, ring.inUse[rx]));
  }

  /** The step that hands the packet to the closure. */
  lemma ShowIsRun(s: Sys, q: nat, ring: R.RxRing, hold: Holding, budget: nat, rx: nat, last: nat, h: nat) returns (shown: Sys)
    requires Inv(s) && AtPass(s, q, ring, hold, budget, rx, last) && budget > 0 && h !in s.pkts
    requires ring.descs[rx].done && ring.descs[rx].eop && hold.pool.free != []
    ensures Run(s, [ReceiveIter(h)], shown) && Inv(shown) && Has(shown, s.rxs[q].pool, R.HandOver(hold, ring, rx))
    ensures |shown.rxs| == |s.rxs| && shown.op == InCallback(q, budget - 1, rx, last) && shown.txs == s.txs
    ensures shown.pools == s.pools[s.rxs[q].pool := PopFree(hold.pool).0]
    ensures shown.rxs[q].ring == R.Take(ring, rx, PopFree(hold.pool).1)
    ensures OneDelivered(s.rxs[q], shown.rxs[q], R.SeenLength(ring.descs[rx]))
  {
    ReceiveIterKeeps(s, h);
    shown := ReceiveIterStep(s, h).s;
    RunOne(s, ReceiveIter(h), shown);
    var p, hold' := s.rxs[q].pool, R.HandOver(hold, ring, rx);
    forall id | id in hold'.mine ensures ClientHas(shown, p, id) {
      if id == ring.inUse[rx] {
        assert h in shown.pkts && shown.pkts[h].pool == p && shown.pkts[h].entry == id;
      } else {
        StillHas(s, shown, p, id, h);
      }
    }
  }

  /** The step that arms the slot with the entry taken for it. */
  lemma RearmIsRun(s: Sys, q: nat, hold: Holding) returns (s': Sys)
    requires Inv(s) && s.op.InCallback? && s.op.q == q && Has(s, s.rxs[q].pool, hold)
    ensures Run(s, [CallbackReturn], s') && Inv(s') && Has(s', s.rxs[q].pool, hold)
    ensures var rx, Q := s.op.rx, s.rxs[q];
      s'.op == Receiving(q, s.op.budget, WrapRing(rx, Q.ring.n), rx) && Q.ring.inUse[rx] < |hold.pool.phys|
      && |s'.rxs| == |s.rxs| && s'.rxs[q] == Q.(ring := R.Rearm(Q.ring, rx, hold.pool.phys[Q.ring.inUse[rx]]))
      && s'.pools == s.pools && s'.txs == s.txs
  {
    CallbackReturnKeeps(s);
    s' := CallbackReturnStep(s).s;
    RunOne(s, CallbackReturn, s');
    forall id | id in hold.mine ensures ClientHas(s', s.rxs[q].pool, id) {
      assert s'.pkts == s.pkts && s'.detached == s.detached;
    }
  }

  /** The call is over: the loop's end, and nothing delivered. */
  lemma LastPassIsRun(s: Sys, q: nat, ring: R.RxRing, hold: Holding, budget: nat, rx: nat, last: nat, f: R.Closure, j: nat)
    returns (s': Sys)
    requires Inv(s) && AtPass(s, q, ring, hold, budget, rx, last)
    requires budget == 0 || R.OnePass(ring, hold.pool, rx, f, j).Stop?
    ensures Run(s, [ReceiveIter(0)], s') && Inv(s') && s'.op == Idle && s'.pools == s.pools && s'.txs == s.txs
    ensures |s'.rxs| == |s.rxs| && s'.rxs[q].ring == R.Finish(ring, rx, last)
    ensures s'.rxs[q].delivered == s.rxs[q].delivered && s'.rxs[q].dma == s.rxs[q].dma
  {
    ReceiveIterKeeps(s, 0);
    s' := ReceiveIterStep(s, 0).s;
    RunOne(s, ReceiveIter(0), s');
  }

  /** What a whole receive call leaves: the ring and the pool of its specification, one more frame
      in the queue's log for each packet handed out, of the length shown, and a NIC that has still
      placed nothing but the first frames of its stream. */
  ghost predicate ReceivedAs(s: Sys, q: nat, out: Result<R.Received>, frames: nat -> Frame, s': Sys) {
    q < |s.rxs| == |s'.rxs| && s.rxs[q].pool < |s.pools| && out.Ok?
    && s'.rxs[q].ring == out.value.ring && s'.pools == s.pools[s.rxs[q].pool := out.value.pool] && s'.txs == s.txs
    && Logged(s.rxs[q].delivered, s'.rxs[q].delivered, out.value.given)
    && Stream(s'.rxs[q], frames, s.pools[s.rxs[q].pool].entrySize)
  }

  ghost predicate Logged(before: seq<Frame>, after: seq<Frame>, given: seq<(nat, nat)>) {
    |after| == |before| + |given| && before <= after
    && forall i :: 0 <= i < |given| ==> |after[|before| + i]| == given[i].1
  }

  /** From any reachable state at the loop of `receive_packets`, for a closure that gives back only
      what is the client's and a NIC that works during the call and reports the lengths of its
      frames, the whole call is a run that leaves ring, pool and log as the call's specification
      says; in particular it does not panic. */
  lemma {:induction false} ReceiveIsRun(s: Sys, q: nat, ring: R.RxRing, hold: Holding, budget: nat, rx: nat, last: nat,
                                        f: R.Closure, nic: nat -> seq<R.RxNicStep>, j: nat, frames: nat -> Frame)
    returns (steps: seq<Step>, s': Sys)
    requires Inv(s) && AtPass(s, q, ring, hold, budget, rx, last)
    requires R.Lawful(ring, hold, budget, rx, f, nic, j)
    requires Stream(s.rxs[q], frames, hold.pool.entrySize)
    requires R.HonestCall(ring, hold.pool, budget, rx, f, nic, j, frames, s.rxs[q].written)
    ensures Run(s, steps, s') && Inv(s') && s'.op == Idle
    ensures ReceivedAs(s, q, R.ReceiveLoop(ring, hold.pool, budget, rx, last, f, nic, j), frames, s')
    decreases budget, 1
  {
    if budget == 0 {
      s' := LastPassIsRun(s, q, ring, hold, budget, rx, last, f, j);
      steps := [ReceiveIter(0)];
      NothingReceived(s, q, ring, rx, last, frames, s');
    } else {
      var mid;
      CallUnfolds(ring, hold, budget, rx, last, f, nic, j, frames, s.rxs[q].written);
      steps, mid := RxNicIsRun(s, q, nic(j), frames);
      var ring' := R.NicRun(ring, nic(j));
      StillAtPass(s, mid, q, ring, ring', hold, budget, rx, last);
      var rest, out := [], R.ReceiveLoop(ring, hold.pool, budget, rx, last, f, nic, j);
      rest, s' := PassesAreRun(mid, q, ring', hold, budget, rx, last, f, nic, j, frames, out);
      RunAppend(s, steps, mid, rest, s');
      steps := steps + rest;
      JoinNic(s, mid, q, out, frames, s');
    }
  }

  /** Closure and NIC keep their rules from the status read of pass `j` on. */
  ghost predicate FairFrom(ring: R.RxRing, hold: Holding, budget: nat, rx: nat, f: R.Closure, nic: nat -> seq<R.RxNicStep>,
                           j: nat, frames: nat -> Frame, w: nat)
    requires R.Shape(ring) && rx < ring.n && budget > 0
  {
    R.LawfulFrom(ring, hold, budget, rx, f, nic, j) && R.HonestFrom(ring, hold.pool, budget, rx, f, nic, j, frames, w)
  }

  lemma CallUnfolds(ring: R.RxRing, hold: Holding, budget: nat, rx: nat, last: nat, f: R.Closure, nic: nat -> seq<R.RxNicStep>,
                    j: nat, frames: nat -> Frame, w: nat)
    requires R.Shape(ring) && rx < ring.n && last < ring.n && budget > 0
    requires R.Lawful(ring, hold, budget, rx, f, nic, j) && R.HonestCall(ring, hold.pool, budget, rx, f, nic, j, frames, w)
    ensures R.Honest(ring, nic(j), frames, w)
    ensures var ring' := R.NicRun(ring, nic(j));
      FairFrom(ring', hold, budget, rx, f, nic, j, frames, R.WrittenAfter(ring, nic(j), w))
      && R.ReceiveLoop(ring, hold.pool, budget, rx, last, f, nic, j) == R.PassResult(ring', hold.pool, budget, rx, last, f, nic, j)
  {
    WrapBelow(rx, ring.n);
  }

  /** The call from the status read of pass `j` on. */
  lemma {:induction false} PassesAreRun(s: Sys, q: nat, ring: R.RxRing, hold: Holding, budget: nat, rx: nat, last: nat,
                                        f: R.Closure, nic: nat -> seq<R.RxNicStep>, j: nat, frames: nat -> Frame,
                                        out: Result<R.Received>)
    returns (steps: seq<Step>, s': Sys)
    requires Inv(s) && AtPass(s, q, ring, hold, budget, rx, last) && budget > 0
    requires Stream(s.rxs[q], frames, hold.pool.entrySize)
    requires out == R.PassResult(ring, hold.pool, budget, rx, last, f, nic, j)
    requires FairFrom(ring, hold, budget, rx, f, nic, j, frames, s.rxs[q].written)
    ensures Run(s, steps, s') && Inv(s') && s'.op == Idle && ReceivedAs(s, q, out, frames, s')
    decreases budget, 0
  {
    PassIsSafe(s, q, ring, hold, budget, rx, last, f, j);
    var pass := R.OnePass(ring, hold.pool, rx, f, j);
    if pass.Stop? {
      s' := LastPassIsRun(s, q, ring, hold, budget, rx, last, f, j);
      steps := [ReceiveIter(0)];
      NothingReceived(s, q, ring, rx, last, frames, s');
    } else {
      var next, more, rest;
      more, next := PassIsRun(s, q, ring, hold, budget, rx, last, f, j);
      PassParts(ring, hold, rx, f, j);
      rest := R.ReceiveLoop(pass.ring, pass.pool, budget - 1, WrapRing(rx, ring.n), rx, f, nic, j + 1);
      steps, s' := RestIsRun(s, next, q, pass, R.HoldAfter(hold, ring, rx, f, j), budget, rx, WrapRing(rx, ring.n),
                             f, nic, j, frames, rest);
      RunAppend(s, more, next, steps, s');
      steps := more + steps;
    }
  }

  /** The rest of the call after a delivering pass that has led from `s` to `next`. */
  lemma {:induction false} RestIsRun(s: Sys, next: Sys, q: nat, pass: R.Pass, hold: Holding, budget: nat, rx: nat, rx': nat,
                                     f: R.Closure, nic: nat -> seq<R.RxNicStep>, j: nat, frames: nat -> Frame,
                                     rest: Result<R.Received>)
    returns (steps: seq<Step>, s': Sys)
    requires q < |s.rxs| == |next.rxs| && s.rxs[q].pool < |s.pools| && pass.Deliver? && budget > 0
    requires Inv(next) && AtPass(next, q, pass.ring, hold, budget - 1, rx', rx) && hold.pool == pass.pool
    requires OneDelivered(s.rxs[q], next.rxs[q], pass.given.1) && next.txs == s.txs
    requires next.pools == s.pools[s.rxs[q].pool := pass.pool] && pass.pool.entrySize == s.pools[s.rxs[q].pool].entrySize
    requires Stream(s.rxs[q], frames, pass.pool.entrySize)
    requires R.Lawful(pass.ring, hold, budget - 1, rx', f, nic, j + 1)
    requires R.HonestCall(pass.ring, pass.pool, budget - 1, rx', f, nic, j + 1, frames, s.rxs[q].written)
    requires rest == R.ReceiveLoop(pass.ring, pass.pool, budget - 1, rx', rx, f, nic, j + 1)
    ensures Run(next, steps, s') && Inv(s') && s'.op == Idle && ReceivedAs(s, q, R.AddGiven(pass.given, rest), frames, s')
    decreases budget - 1, 2
  {
    steps, s' := ReceiveIsRun(next, q, pass.ring, hold, budget - 1, rx', rx, f, nic, j + 1, frames);
    JoinReceives(s, next, s', q, pass, frames, rest);
  }

  lemma NothingReceived(s: Sys, q: nat, ring: R.RxRing, rx: nat, last: nat, frames: nat -> Frame, s': Sys)
    requires q < |s.rxs| == |s'.rxs| && s.rxs[q].pool < |s.pools| && s'.pools == s.pools && s'.txs == s.txs
    requires s'.rxs[q].ring == R.Finish(ring, rx, last) && s'.rxs[q].delivered == s.rxs[q].delivered && s'.rxs[q].dma == s.rxs[q].dma
    requires Stream(s.rxs[q], frames, s.pools[s.rxs[q].pool].entrySize)
    ensures ReceivedAs(s, q, Ok(R.Received(R.Finish(ring, rx, last), s.pools[s.rxs[q].pool], [])), frames, s')
  {
  }

  lemma JoinNic(s: Sys, mid: Sys, q: nat, out: Result<R.Received>, frames: nat -> Frame, s': Sys)
    requires SameButRxNic(s, mid, q) && ReceivedAs(mid, q, out, frames, s')
    ensures ReceivedAs(s, q, out, frames, s')
  {
  }

  lemma StillAtPass(s: Sys, mid: Sys, q: nat, ring: R.RxRing, ring': R.RxRing, hold: Holding, budget: nat, rx: nat, last: nat)
    requires AtPass(s, q, ring, hold, budget, rx, last) && SameButRxNic(s, mid, q) && mid.rxs[q].ring == ring'
    ensures AtPass(mid, q, ring', hold, budget, rx, last)
  {
    forall id | id in hold.mine ensures ClientHas(mid, mid.rxs[q].pool, id) {
      assert mid.pkts == s.pkts && mid.detached == s.detached && ClientHas(s, s.rxs[q].pool, id);
    }
  }

  lemma JoinReceives(s: Sys, next: Sys, s': Sys, q: nat, pass: R.Pass, frames: nat -> Frame, rest: Result<R.Received>)
    requires q < |s.rxs| && s.rxs[q].pool < |s.pools| && pass.Deliver?
    requires |next.rxs| == |s.rxs| && OneDelivered(s.rxs[q], next.rxs[q], pass.given.1) && next.txs == s.txs
    requires next.pools == s.pools[s.rxs[q].pool := pass.pool] && pass.pool.entrySize == s.pools[s.rxs[q].pool].entrySize
    requires ReceivedAs(next, q, rest, frames, s')
    ensures ReceivedAs(s, q, R.AddGiven(pass.given, rest), frames, s')
  {
    var given := [pass.given] + rest.value.given;
    var before, after := s.rxs[q].delivered, s'.rxs[q].delivered;
    forall i | 0 <= i < |given| ensures |after[|before| + i]| == given[i].1 {
      if i == 0 {
        assert after[|before|] == next.rxs[q].delivered[|before|];
      } else {
        assert after[|before| + i] == after[|next.rxs[q].delivered| + (i - 1)];
      }
    }
  }

  /** No pass in a reachable state panics. */
  lemma PassIsSafe(s: Sys, q: nat, ring: R.RxRing, hold: Holding, budget: nat, rx: nat, last: nat, f: R.Closure, j: nat)
    requires Inv(s) && AtPass(s, q, ring, hold, budget, rx, last) && R.LawfulPass(ring, hold, rx, f, j)
    ensures !R.OnePass(ring, hold.pool, rx, f, j).Crash?
  {
    var Q := s.rxs[q];
    RingIsExclusive(s, q, hold);
    assert RxOk(Q, PhaseOf(s.op, q), s.pools[Q.pool].phys);
    R.PassDelivers(ring, hold, rx, f, j, Q.posted, |Q.delivered|, Q.written, |Q.dma|);
  }

  // ---- calls in reachable states ----

  /** Between calls of every run: whatever a closure that gives back only what is the client's does
      with the pool and whatever the NIC does, a receive call does not panic and stops only with the
      budget spent, with every frame delivered that is complete at the last status read, or with no
      entry free. */
  lemma ReachableReceive(s: Sys, steps: seq<Step>, s': Sys, q: nat, hold: Holding, budget: nat,
                         f: R.Closure, nic: nat -> seq<R.RxNicStep>)
    returns (w': int, filled': int)
    requires Inv(s) && Run(s, steps, s') && s'.op == Idle && q < |s'.rxs| && Has(s', s'.rxs[q].pool, hold)
    requires R.Shape(s'.rxs[q].ring) && R.Lawful(s'.rxs[q].ring, hold, budget, s'.rxs[q].ring.rx, f, nic, 0)
    ensures var Q := s'.rxs[q];
      var out := R.ReceiveLoop(Q.ring, hold.pool, budget, Q.ring.rx, Q.ring.rx, f, nic, 0);
      out.Ok? && R.Receives(out.value, Q.ring.n, budget, |Q.delivered|, Q.written, w', filled')
  {
    RunKeeps(s, steps, s');
    RingIsExclusive(s', q, hold);
    w', filled' := QueueReceives(s'.rxs[q], hold, budget, f, nic);
  }

  lemma QueueReceives(Q: RxQueue, hold: Holding, budget: nat, f: R.Closure, nic: nat -> seq<R.RxNicStep>)
    returns (w': int, filled': int)
    requires RxOk(Q, Between, hold.pool.phys) && Exclusive(hold, Q.ring.inUse)
    requires R.Lawful(Q.ring, hold, budget, Q.ring.rx, f, nic, 0)
    ensures var out := R.ReceiveLoop(Q.ring, hold.pool, budget, Q.ring.rx, Q.ring.rx, f, nic, 0);
      out.Ok? && R.Receives(out.value, Q.ring.n, budget, |Q.delivered|, Q.written, w', filled')
  {
    var out, mine' := R.ReceiveLoop(Q.ring, hold.pool, budget, Q.ring.rx, Q.ring.rx, f, nic, 0), {};
    w', filled', mine' := R.ReceiveCount(Q.ring, hold, budget, Q.ring.rx, Q.ring.rx, f, nic, 0, |Q.delivered|, |Q.delivered|,
                                         Q.written, |Q.dma|, out);
  }

  /** Between calls of every run, whatever the NIC does: a receive call hands a keeping closure
      exactly as many packets as budget, completed frames and free entries allow, and a dropping one
      as many as budget and completed frames allow if any entry is free. The frames that count are
      those complete at the last status read, `w'`. */
  lemma ReachableReceiveCount(s: Sys, steps: seq<Step>, s': Sys, q: nat, budget: nat, f: R.Closure, nic: nat -> seq<R.RxNicStep>)
    returns (w': int, filled': int)
    requires Inv(s) && Run(s, steps, s') && s'.op == Idle && q < |s'.rxs|
    requires R.KeepsAll(f) || R.DropsAll(f)
    ensures Formed(s')
    ensures var Q := s'.rxs[q];
      ExactCount(Q, s'.pools[Q.pool], budget, f, nic, w', filled')
  {
    RunKeeps(s, steps, s');
    var Q := s'.rxs[q];
    RingIsExclusive(s', q, Holding(s'.pools[Q.pool], {}));
    assert RxOk(Q, Between, s'.pools[Q.pool].phys);
    w', filled' := R.ReceiveExact(Q.ring, s'.pools[Q.pool], budget, f, nic, |Q.delivered|, Q.written, |Q.dma|);
  }

  ghost predicate ExactCount(Q: RxQueue, p: Pool, budget: nat, f: R.Closure, nic: nat -> seq<R.RxNicStep>, w': int, filled': int)
    requires R.Shape(Q.ring)
  {
    var out, waiting := R.ReceiveLoop(Q.ring, p, budget, Q.ring.rx, Q.ring.rx, f, nic, 0), w' - |Q.delivered|;
    out.Ok? && Q.written <= w' && (R.IsQuiet(nic) ==> w' == Q.written) && waiting >= 0
    && R.Receives(out.value, Q.ring.n, budget, |Q.delivered|, Q.written, w', filled')
    && (R.KeepsAll(f) ==> |out.value.given| == R.Least(budget, R.Least(waiting, |p.free|)))
    && (R.DropsAll(f) ==> |out.value.given| == if p.free == [] then 0 else R.Least(budget, waiting))
  }

  /** Between calls of every run, whatever the NIC does: a recycling call frees exactly the whole
      batches among the descriptors completed at the last status read, `w'`, oldest first. */
  lemma ReachableRecycle(s: Sys, steps: seq<Step>, s': Sys, q: nat, nic: nat -> seq<T.TxNicStep>) returns (w': int, h': int)
    requires Inv(s) && Run(s, steps, s') && s'.op == Idle && q < |s'.txs|
    ensures RecyclesDone(s'.txs[q], nic, w', h')
  {
    RunKeeps(s, steps, s');
    w', h' := QueueRecycles(s'.txs[q], |s'.pools|, nic);
  }

  ghost predicate RecyclesDone(Q: TxQueue, nic: nat -> seq<T.TxNicStep>, w': int, h': int) {
    T.Shape(Q.ring) && Cleaned(Q) <= Q.written <= w' && (T.IsQuiet(nic) ==> w' == Q.written)
    && (var out := T.Recycle(Q.ring, Q.ring.clean, Q.pool.Some?, nic, 0);
        T.TakesBatches(Q.ring, out, (w' - Cleaned(Q)) / T.TX_CLEAN_BATCH)
        && T.Window(out.ring, Cleaned(Q) + |out.freed|, w', h', |Q.sent|, |Q.sent|))
  }

  lemma QueueRecycles(Q: TxQueue, pools: nat, nic: nat -> seq<T.TxNicStep>) returns (w': int, h': int)
    requires TxOk(Q, Q.ring.clean, |Q.sent|, pools)
    ensures RecyclesDone(Q, nic, w', h')
  {
    w', h' := T.RecycleExact(Q.ring, Q.pool.Some?, nic, Cleaned(Q), Q.written, |Q.wire|, |Q.sent|, |Q.sent|);
  }

  /** Between calls of every run: a full transmit queue of 64 slots or more, all of whose
      descriptors are completed, gets all but 31 entries back in one call and can send again. */
  lemma ReachableRecovery(s: Sys, steps: seq<Step>, s': Sys, q: nat, nic: nat -> seq<T.TxNicStep>)
    requires Inv(s) && Run(s, steps, s') && s'.op == Idle && q < |s'.txs|
    requires T.Shape(s'.txs[q].ring) && !T.CanSend(s'.txs[q].ring)
    requires s'.txs[q].ring.n >= 64 && s'.txs[q].written == |s'.txs[q].sent|
    ensures var r := s'.txs[q].ring;
      var out := T.Recycle(r, r.clean, true, nic, 0);
      |out.freed| == r.n - 32 && |out.ring.inUse| == 31 && T.CanSend(out.ring)
  {
    RunKeeps(s, steps, s');
    QueueRecovers(s'.txs[q], |s'.pools|, nic);
  }

  lemma QueueRecovers(Q: TxQueue, pools: nat, nic: nat -> seq<T.TxNicStep>)
    requires TxOk(Q, Q.ring.clean, |Q.sent|, pools) && !T.CanSend(Q.ring) && Q.ring.n >= 64 && Q.written == |Q.sent|
    ensures var out := T.Recycle(Q.ring, Q.ring.clean, true, nic, 0);
      |out.freed| == Q.ring.n - 32 && |out.ring.inUse| == 31 && T.CanSend(out.ring)
  {
    T.LargeRingRecovers(Q.ring, nic, Cleaned(Q), Q.written, |Q.wire|, |Q.sent|, |Q.sent|);
  }
}
