/** What `init` leaves behind: the rings as `start_rx_queue` and `start_tx_queue` set them up,
    or an error. */
module Startup {
  import opened Results
  import opened RingIndex
  import opened Buffers
  import opened System
  import opened Invariant
  import opened Guarantees
  import Preservation
  import T = Transmit
  import R = Receive

  /** Entry given to slot `i` of receive queue `q`: the stack is popped queue by queue, slot by
      slot. */
  function StartId(free: seq<nat>, n: nat, q: nat, i: nat): nat
    requires q * n + i < |free|
  {
    free[|free| - 1 - (q * n + i)]
  }

  lemma StackReaches(num: nat, n: nat, q: nat, i: nat, size: nat)
    requires q < num && i < n && num * n <= size
    ensures 0 <= q * n + i < num * n <= size
  {
    MulMonotone(q + 1, num, n);
    assert (q + 1) * n == q * n + n;
  }

  function StartIds(free: seq<nat>, num: nat, n: nat, q: nat): (ids: seq<nat>)
    requires q < num && num * n <= |free|
    ensures |ids| == n
  {
    seq(n, i requires 0 <= i < n => StackReaches(num, n, q, i, |free|); StartId(free, n, q, i))
  }

  /** Descriptors armed with their buffers, status clear, head at 0 and RDT at n-1. */
  function RxStarted(ids: seq<nat>, phys: seq<nat>): R.RxRing
    requires |ids| >= 1
  {
    R.RxRing(|ids|,
             seq(|ids|, i requires 0 <= i < |ids| => R.RxDesc(if ids[i] < |phys| then phys[ids[i]] else 0, 0, false, false)),
             ids, 0, 0, 0, |ids| - 1)
  }

  /** Cleared descriptors, both registers 0, nothing in flight. */
  function TxStarted(n: nat): T.TxRing {
    T.TxRing(n, seq(n, i => T.TxDesc(0, 0, false)), [], 0, 0, 0, 0, 0)
  }

  datatype Outcome = Up(s: Sys) | Failed(error: IgbError, s: Sys)

  /** `init` with `numRx` and `numTx` queues of `n` slots over pool `p`. A queue of the wrong
      size is noticed before any entry is taken; running out of entries loses all of them. */
  function Init(s: Sys, p: nat, numRx: nat, numTx: nat, n: nat): Outcome
    requires n >= 1 && p < |s.pools|
  {
    var pool := s.pools[p];
    if numRx + numTx > 0 && !SizeGuard(n) then Failed(QueueNotAligned, s)
    else if numRx * n > |pool.free| then Failed(NoMemory, s.(pools := s.pools[p := pool.(free := [])]))
    else
      Up(s.(pools := s.pools[p := pool.(free := pool.free[..|pool.free| - numRx * n])],
            rxs := seq(numRx, q requires 0 <= q < numRx =>
                         RxQueue(RxStarted(StartIds(pool.free, numRx, n, q), pool.phys), p, [], 0, [], 0)),
            txs := seq(numTx, q => TxQueue(TxStarted(n), None, [], [], 0))))
  }

  /** `init` succeeds exactly when the ring size is a power of two, or no queue asks for it, and the
      receive rings fit into the free entries; the size is checked first. */
  lemma InitExact(s: Sys, p: nat, numRx: nat, numTx: nat, n: nat)
    requires n >= 1 && p < |s.pools|
    ensures var out := Init(s, p, numRx, numTx, n);
      (out.Up? <==> (numRx + numTx == 0 || IsPowerOfTwo(n)) && numRx * n <= |s.pools[p].free|)
      && (out.Failed? ==> out.error == if numRx + numTx == 0 || IsPowerOfTwo(n) then NoMemory else QueueNotAligned)
  {
    SizeGuardExact(n);
  }

  /** A failed `init` leaves no queue. On a wrong ring size it has taken nothing; out of memory it has
      emptied the stack of its pool and touched nothing else. */
  lemma FailedInitLeaves(s: Sys, p: nat, numRx: nat, numTx: nat, n: nat)
    requires n >= 1 && p < |s.pools| && Init(s, p, numRx, numTx, n).Failed?
    ensures var out := Init(s, p, numRx, numTx, n);
      (out.error == QueueNotAligned ==> out.s == s)
      && (out.error == NoMemory ==>
            |out.s.pools| == |s.pools| && out.s.pools[p].free == []
            && forall k :: 0 <= k < |s.pools[p].free| ==> !ValidLoc(out.s, Free(p, k)))
      && out.s == s.(pools := out.s.pools) && SamePools(s, out.s)
      && forall p' :: 0 <= p' < |s.pools| && p' != p ==> out.s.pools[p'] == s.pools[p']
  {
  }

  /** The queues `init` leaves, slot by slot: receive descriptors armed with their entries and nothing
      else in them, all but one handed to the NIC; transmit descriptors cleared, nothing in flight. */
  lemma InitSlots(s: Sys, p: nat, numRx: nat, numTx: nat, n: nat, q: nat, i: nat)
    requires n >= 1 && p < |s.pools| && Init(s, p, numRx, numTx, n).Up? && i < n
    requires forall k :: 0 <= k < |s.pools[p].free| ==> s.pools[p].free[k] < |s.pools[p].phys|
    ensures var s', free, phys := Init(s, p, numRx, numTx, n).s, s.pools[p].free, s.pools[p].phys;
      |s'.rxs| == numRx && |s'.txs| == numTx
      && (q < numRx ==>
            0 <= q * n + i < |free|
            && (var Q, id := s'.rxs[q], free[|free| - 1 - (q * n + i)];
                Q.pool == p && Q.ring.n == |Q.ring.inUse| == |Q.ring.descs| == n && Q.ring.inUse[i] == id
                && Q.ring.descs[i] == R.RxDesc(phys[id], 0, false, false)
                && Q.ring.rx == Q.ring.head == Q.ring.wb == 0 && Q.ring.tail == n - 1))
      && (q < numTx ==>
            (var Q := s'.txs[q];
             Q.pool == None && Q.ring.n == |Q.ring.descs| == n && Q.ring.inUse == [] && Q.ring.descs[i] == T.TxDesc(0, 0, false)
             && Q.ring.clean == Q.ring.tx == Q.ring.head == Q.ring.wb == Q.ring.tail == 0))
  {
    if q < numRx {
      StackReaches(numRx, n, q, i, |s.pools[p].free|);
    }
  }

  /** Before the device exists: clients may hold packets, no queue does. */
  ghost predicate NoDevice(s: Sys) {
    s.rxs == [] && s.txs == [] && s.op == Idle
  }

  /** A successful `init` establishes the invariant, and nothing has been recycled. */
  lemma InitEstablishes(s: Sys, p: nat, numRx: nat, numTx: nat, n: nat)
    requires Inv(s) && NoDevice(s) && p < |s.pools| && 1 <= n < 0x8000_0000 && IsPowerOfTwo(n)
    requires numRx * n <= |s.pools[p].free|
    ensures Init(s, p, numRx, numTx, n).Up?
    ensures Inv(Init(s, p, numRx, numTx, n).s) && NothingRecycled(Init(s, p, numRx, numTx, n).s)
  {
    SizeGuardExact(n);
    var s' := Init(s, p, numRx, numTx, n).s;
    InitQueues(s, s', p, numRx, n);
    InitOwned(s, s', p, numRx, n);
  }

  /** What `Init` returns, seen place by place. */
  ghost predicate FreshDevice(s: Sys, s': Sys, p: nat, numRx: nat, n: nat) {
    NoDevice(s) && p < |s.pools| && numRx * n <= |s.pools[p].free| && n >= 1 && |s'.rxs| == numRx
    && SamePools(s, s') && s'.mem == s.mem && s'.pkts == s.pkts && s'.detached == s.detached && s'.op == Idle
    && (forall p' :: 0 <= p' < |s.pools| && p' != p ==> s'.pools[p'] == s.pools[p'])
    && s'.pools[p].free == s.pools[p].free[..|s.pools[p].free| - numRx * n]
    && (forall q :: 0 <= q < numRx ==>
          s'.rxs[q] == RxQueue(RxStarted(StartIds(s.pools[p].free, numRx, n, q), s.pools[p].phys), p, [], 0, [], 0))
    && (forall q :: 0 <= q < |s'.txs| ==> s'.txs[q] == TxQueue(TxStarted(n), None, [], [], 0))
  }

  lemma InitQueues(s: Sys, s': Sys, p: nat, numRx: nat, n: nat)
    requires Inv(s) && FreshDevice(s, s', p, numRx, n) && n < 0x8000_0000 && IsPowerOfTwo(n)
    ensures GoodPools(s'.pools) && Queues(s') && NothingRecycled(s')
  {
    forall q | 0 <= q < |s'.txs| ensures T.Shape(s'.txs[q].ring) && TxOk(s'.txs[q], 0, 0, |s'.pools|) && TxArmed(s'.txs[q]) {
      ModUnique(0, 0, 0, n);
    }
    forall q | 0 <= q < numRx ensures RxOk(s'.rxs[q], Between, s.pools[p].phys) {
      StartedRingOk(s, p, numRx, n, q, s'.rxs[q]);
    }
  }

  lemma StartedRingOk(s: Sys, p: nat, num: nat, n: nat, q: nat, Q: RxQueue)
    requires Inv(s) && p < |s.pools| && q < num && num * n <= |s.pools[p].free|
    requires 1 <= n < 0x8000_0000 && IsPowerOfTwo(n)
    requires Q == RxQueue(RxStarted(StartIds(s.pools[p].free, num, n, q), s.pools[p].phys), p, [], 0, [], 0)
    ensures RxOk(Q, Between, s.pools[p].phys)
  {
    var phys := s.pools[p].phys;
    ModUnique(0, 0, 0, n);
    ModUnique(n - 1, 0, n - 1, n);
    forall c: nat | c < n ensures R.BufOf(Q.ring, c) < |phys| && R.At(Q.ring, c) == R.RxDesc(phys[R.BufOf(Q.ring, c)], 0, false, false) {
      ModUnique(c, 0, c, n);
      StackReaches(num, n, q, c, |s.pools[p].free|);
      var place := Free(p, |s.pools[p].free| - 1 - (q * n + c));
      assert ValidLoc(s, place) && InPools(s, BufAt(s, place));
    }
  }

  lemma InitOwned(s: Sys, s': Sys, p: nat, num: nat, n: nat)
    requires Inv(s) && FreshDevice(s, s', p, num, n)
    ensures Owned(s')
  {
    var F := |s.pools[p].free|;
    var to := (l: Loc) => if l.Free? && l.p == p && F - num * n <= l.i < F then RxSlot((F - 1 - l.i) / n, (F - 1 - l.i) % n) else l;
    var from := (l: Loc) => if l.RxSlot? && l.q * n + l.c < F then Free(p, F - 1 - (l.q * n + l.c)) else l;
    forall l | ValidLoc(s', l) ensures Becomes(s, from(l), s', l) && to(from(l)) == l {
      StartedPlace(s, s', p, num, n, l);
    }
    forall l | ValidLoc(s, l) ensures Becomes(s, l, s', to(l)) {
      StackPlace(s, s', p, num, n, l);
    }
    MovesKeep(s, s', to, from);
  }

  lemma StartedPlace(s: Sys, s': Sys, p: nat, num: nat, n: nat, l: Loc)
    requires FreshDevice(s, s', p, num, n) && ValidLoc(s', l)
    ensures var F := |s.pools[p].free|;
      if l.RxSlot? then
        l.q < num && l.c < n && l.q * n + l.c < num * n <= F && Becomes(s, Free(p, F - 1 - (l.q * n + l.c)), s', l)
        && (l.q * n + l.c) / n == l.q && (l.q * n + l.c) % n == l.c
      else Becomes(s, l, s', l) && !(l.Free? && l.p == p && F - num * n <= l.i)
  {
    if l.RxSlot? {
      StackReaches(num, n, l.q, l.c, |s.pools[p].free|);
      ModUnique(l.q * n + l.c, l.q, l.c, n);
      ModUnique(l.c, 0, l.c, n);
    }
  }

  lemma StackPlace(s: Sys, s': Sys, p: nat, num: nat, n: nat, l: Loc)
    requires FreshDevice(s, s', p, num, n) && ValidLoc(s, l)
    ensures var F := |s.pools[p].free|;
      if l.Free? && l.p == p && F - num * n <= l.i then
        l.i < F && Becomes(s, l, s', RxSlot((F - 1 - l.i) / n, (F - 1 - l.i) % n))
      else Becomes(s, l, s', l)
  {
    var F := |s.pools[p].free|;
    if l.Free? && l.p == p && F - num * n <= l.i {
      var k := F - 1 - l.i;
      var q, c := k / n, k % n;
      assert k == q * n + c;
      if q >= num { MulMonotone(num, q, n); }
      ModUnique(c, 0, c, n);
    }
  }

  /** A failed `init` that runs out of entries leaves the pool empty: the entries it had taken,
      and with them any that were free, belong to no one any more. */
  lemma FailedInitLeaks(s: Sys, p: nat, numRx: nat, numTx: nat, n: nat)
    requires Inv(s) && NoDevice(s) && p < |s.pools| && n >= 1
    requires Init(s, p, numRx, numTx, n).Failed?
    ensures var out := Init(s, p, numRx, numTx, n);
      Conserved(out.s) <==> out.error == QueueNotAligned || s.pools[p].free == []
  {
    var out := Init(s, p, numRx, numTx, n);
    if out.error == NoMemory {
      if s.pools[p].free == [] {
        assert s.pools[p := s.pools[p].(free := [])] == s.pools;
      } else {
        var b := Buf(p, s.pools[p].free[0]);
        assert ValidLoc(s, Free(p, 0)) && BufAt(s, Free(p, 0)) == b && InPools(out.s, b);
        forall l | ValidLoc(out.s, l) ensures BufAt(out.s, l) != b {
          assert ValidLoc(s, l) && l != Free(p, 0) && BufAt(s, l) == BufAt(out.s, l);
        }
      }
    }
  }

  /** Pools straight from `allocate`: every entry free, pushed in order. */
  ghost predicate FreshPools(pools: seq<Pool>) {
    forall p :: 0 <= p < |pools| ==>
      |pools[p].free| == |pools[p].phys| && forall i :: 0 <= i < |pools[p].free| ==> pools[p].free[i] == i
  }

  lemma FreshIsGood(pools: seq<Pool>, mem: Memory)
    requires GoodPools(pools) && FreshPools(pools)
    ensures Inv(Sys(pools, mem, [], [], map[], {}, Idle)) && NoDevice(Sys(pools, mem, [], [], map[], {}, Idle))
  {
    var s := Sys(pools, mem, [], [], map[], {}, Idle);
    forall b | InPools(s, b) ensures exists l :: ValidLoc(s, l) && BufAt(s, l) == b {
      assert ValidLoc(s, Free(b.pool, b.id)) && BufAt(s, Free(b.pool, b.id)) == b;
    }
  }

  /** From fresh pools, queue `q` slot `i` gets entry `entries - 1 - (q * n + i)`, no entry twice,
      and the system keeps its invariant in every run from there. */
  lemma FreshInit(pools: seq<Pool>, mem: Memory, p: nat, numRx: nat, numTx: nat, n: nat, steps: seq<Step>, s': Sys)
    requires GoodPools(pools) && FreshPools(pools) && p < |pools| && 1 <= n < 0x8000_0000 && IsPowerOfTwo(n)
    requires numRx * n <= |pools[p].phys|
    ensures var out := Init(Sys(pools, mem, [], [], map[], {}, Idle), p, numRx, numTx, n);
      out.Up? && |out.s.rxs| == numRx && |out.s.txs| == numTx
      && (forall q, i | 0 <= q < numRx && 0 <= i < n ::
            |out.s.rxs[q].ring.inUse| == n && out.s.rxs[q].ring.inUse[i] == |pools[p].phys| - 1 - (q * n + i))
      && (Run(out.s, steps, s') ==> Inv(s'))
  {
    var s := Sys(pools, mem, [], [], map[], {}, Idle);
    FreshIsGood(pools, mem);
    InitEstablishes(s, p, numRx, numTx, n);
    var out := Init(s, p, numRx, numTx, n);
    forall q, i | 0 <= q < numRx && 0 <= i < n
      ensures |out.s.rxs[q].ring.inUse| == n && out.s.rxs[q].ring.inUse[i] == |pools[p].phys| - 1 - (q * n + i)
    {
      StackReaches(numRx, n, q, i, |pools[p].free|);
    }
    if Run(out.s, steps, s') {
      Preservation.RunKeeps(out.s, steps, s');
    }
  }
}
