/** The transmit ring of one queue: the values it holds, what one driver or NIC action does
    to it, and what batched recycling achieves. */
module Transmit {
  import opened Results
  import opened RingIndex

  const TX_CLEAN_BATCH := 32

  /** The parts of a transmit descriptor the protocol depends on. */
  datatype TxDesc = TxDesc(addr: nat, len: nat, done: bool)

  /** `inUse`, `clean` and `tx` belong to the driver; `head` is TDH, `wb` the slot the NIC
      writes back next, `tail` is TDT. */
  datatype TxRing = TxRing(n: nat, descs: seq<TxDesc>, inUse: seq<nat>, clean: nat, tx: nat,
                           head: nat, wb: nat, tail: nat)

  ghost predicate Shape(r: TxRing) {
    1 <= r.n < 0x8000_0000 && IsPowerOfTwo(r.n) && |r.descs| == r.n
    && r.clean < r.n && r.tx < r.n && r.head < r.n && r.wb < r.n && r.tail < r.n
  }

  /** Descriptor of the slot counter `c` falls on. */
  function At(r: TxRing, c: nat): TxDesc
    requires 1 <= r.n == |r.descs|
  {
    r.descs[c % r.n]
  }

  /** The counters behind the indices: `k` ids cleaned, `w` descriptors written back, `h`
      fetched, `t` posted to the tail register, `s` sent. They stay in this order within one
      lap less one slot, each index is its counter modulo n, and Done is set in the window
      exactly on the part written back. */
  ghost predicate Window(r: TxRing, k: int, w: int, h: int, t: int, s: int) {
    Shape(r) && 0 <= k <= w <= h <= t <= s < k + r.n
    && |r.inUse| == s - k && r.tx == s % r.n
    && r.head == h % r.n && r.wb == w % r.n && r.tail == t % r.n
    && (forall c :: k <= c < s ==> (At(r, c).done <==> c < w))
  }

  /** Maps a word to the value it has after a cast to `i32`. */
  function AsI32(x: nat): int {
    var w := x % 0x1_0000_0000;
    if w < 0x8000_0000 then w else w - 0x1_0000_0000
  }

  /** The cast yields the one 32-bit signed number congruent to the word. */
  lemma AsI32Exact(x: nat)
    ensures -0x8000_0000 <= AsI32(x) < 0x8000_0000 && (x - AsI32(x)) % 0x1_0000_0000 == 0
  {
  }

  predicate CanSend(r: TxRing)
    requires r.n >= 1
  {
    WrapRing(r.tx, r.n) != r.clean
  }

  /** `send` up to the push onto `bufs_in_use`; the length is cast to `u16`. */
  function Post(r: TxRing, addr: nat, len: nat, id: nat): TxRing
    requires r.n >= 1 && r.tx < |r.descs|
  {
    r.(descs := r.descs[r.tx := TxDesc(addr, len % 0x1_0000, false)],
       inUse := r.inUse + [id],
       tx := WrapRing(r.tx, r.n))
  }

  /** The write of TDT that ends `send`. */
  function Ring(r: TxRing): TxRing {
    r.(tail := r.tx)
  }

  function Cleanable(r: TxRing, clean: nat): int {
    var d := AsI32(r.tx) - AsI32(clean);
    if d < 0 then d + AsI32(r.n) else d
  }

  function BatchEnd(r: TxRing, clean: nat): nat {
    var to := clean + TX_CLEAN_BATCH - 1;
    if to >= r.n then to - r.n else to
  }

  /** Whether one more pass of the recycling loop frees a batch. */
  predicate BatchReady(r: TxRing, clean: nat) {
    Cleanable(r, clean) >= TX_CLEAN_BATCH
    && BatchEnd(r, clean) < |r.descs| && r.descs[BatchEnd(r, clean)].done
  }

  /** The ids one pass drains; nothing is drained while the queue has no pool. */
  function Drained(r: TxRing, hasPool: bool): seq<nat> {
    if !hasPool then []
    else if TX_CLEAN_BATCH >= |r.inUse| then r.inUse
    else r.inUse[..TX_CLEAN_BATCH]
  }

  function AfterBatch(r: TxRing, hasPool: bool): TxRing {
    r.(inUse := r.inUse[|Drained(r, hasPool)|..])
  }

  /** Actions of the NIC on the ring. `Fetch` takes the descriptor at TDH; `WriteBack` sets
      Done in the oldest fetched descriptor and overwrites its other fields. */
  datatype TxNicStep = Fetch | WriteBack(junkAddr: nat, junkLen: nat)

  function NicStep(r: TxRing, step: TxNicStep): TxRing
    requires r.n >= 1 && r.wb < |r.descs|
  {
    match step
    case Fetch => if r.head == r.tail then r else r.(head := WrapRing(r.head, r.n))
    case WriteBack(a, l) =>
      if r.wb == r.head then r
      else r.(descs := r.descs[r.wb := TxDesc(a, l, true)], wb := WrapRing(r.wb, r.n))
  }

  lemma NicStepShape(r: TxRing, step: TxNicStep)
    requires Shape(r)
    ensures Shape(NicStep(r, step))
  {
    WrapBelow(r.head, r.n);
    WrapBelow(r.wb, r.n);
  }

  function NicRun(r: TxRing, steps: seq<TxNicStep>): (r': TxRing)
    requires Shape(r)
    ensures Shape(r') && r'.n == r.n && r'.inUse == r.inUse
    ensures r'.clean == r.clean && r'.tx == r.tx && r'.tail == r.tail
    decreases |steps|
  {
    if steps == [] then r
    else NicStepShape(r, steps[0]); NicRun(NicStep(r, steps[0]), steps[1..])
  }

  /** The state reached by a whole call of `recycle_tx_buffers` and the ids it frees, in the
      order it frees them. The NIC performs `nic(j)` before the `j`-th status read. */
  datatype Recycled = Recycled(ring: TxRing, freed: seq<nat>, batches: nat)

  function Recycle(r: TxRing, clean: nat, hasPool: bool, nic: nat -> seq<TxNicStep>, j: nat): (out: Recycled)
    requires Shape(r) && clean < r.n
    ensures Shape(out.ring) && out.ring.n == r.n && out.ring.tx == r.tx && out.ring.tail == r.tail
    decreases Cleanable(r, clean)
  {
    var r' := NicRun(r, nic(j));
    if BatchReady(r', clean) then
      BatchAdvances(r', clean, hasPool);
      var out := Recycle(AfterBatch(r', hasPool), WrapRing(BatchEnd(r', clean), r'.n), hasPool, nic, j + 1);
      Recycled(out.ring, Drained(r', hasPool) + out.freed, out.batches + 1)
    else Recycled(r'.(clean := clean), [], 0)
  }

  /** With both indices on a ring of fewer than 2^31 slots the casts are harmless and the
      loop's measure is the ring distance. */
  lemma CleanableIsDistance(r: TxRing, clean: nat)
    requires Shape(r) && clean < r.n
    ensures Cleanable(r, clean) == if r.tx >= clean then r.tx - clean else r.tx + r.n - clean
    ensures 0 <= Cleanable(r, clean) < r.n
  {
    assert AsI32(r.tx) == r.tx && AsI32(clean) == clean && AsI32(r.n) == r.n;
  }

  lemma BatchAdvances(r: TxRing, clean: nat, hasPool: bool)
    requires Shape(r) && clean < r.n && Cleanable(r, clean) >= TX_CLEAN_BATCH
    ensures var clean' := WrapRing(BatchEnd(r, clean), r.n);
            clean' < r.n && Shape(AfterBatch(r, hasPool))
            && BatchEnd(r, clean) == (clean + 31) % r.n
            && clean' == (clean + 32) % r.n
            && Cleanable(AfterBatch(r, hasPool), clean') == Cleanable(r, clean) - TX_CLEAN_BATCH
  {
    var to := BatchEnd(r, clean);
    SlotAhead(clean, 31, r.n);
    WrapCounter(clean + 31, to, r.n);
    SlotAhead(clean, 32, r.n);
    AfterSlot(r, clean, (clean + 32) % r.n, hasPool);
  }

  lemma AfterSlot(r: TxRing, clean: nat, clean': nat, hasPool: bool)
    requires Shape(r) && clean < r.n && Cleanable(r, clean) >= TX_CLEAN_BATCH
    requires clean' == if clean + 32 < r.n then clean + 32 else clean + 32 - r.n
    ensures clean' < r.n
    ensures Cleanable(AfterBatch(r, hasPool), clean') == Cleanable(r, clean) - TX_CLEAN_BATCH
  {
    CleanableIsDistance(r, clean);
    CleanableIsDistance(AfterBatch(r, hasPool), clean');
  }

  // ---- the window under each action ----

  /** `can_send` holds exactly while fewer than n-1 packets are in flight. */
  lemma CanSendExact(r: TxRing, k: int, w: int, h: int, t: int, s: int)
    requires Window(r, k, w, h, t, s) && r.clean == k % r.n
    ensures CanSend(r) <==> |r.inUse| < r.n - 1
  {
    WrapCounter(s, r.tx, r.n);
    if s - k < r.n - 1 {
      SlotsDiffer(s + 1, k, r.n);
    } else {
      assert s + 1 == k + r.n;
      ModLap(k, r.n);
    }
  }

  lemma PostWindow(r: TxRing, k: int, w: int, h: int, t: int, s: int, addr: nat, len: nat, id: nat)
    requires Window(r, k, w, h, t, s) && |r.inUse| < r.n - 1
    ensures Window(Post(r, addr, len, id), k, w, h, t, s + 1)
    ensures At(Post(r, addr, len, id), s) == TxDesc(addr, len % 0x1_0000, false)
    ensures forall c :: k <= c < s ==> At(Post(r, addr, len, id), c) == At(r, c)
  {
    WrapCounter(s, r.tx, r.n);
    PostSlots(r, k, s, addr, len, id);
  }

  lemma PostSlots(r: TxRing, k: nat, s: nat, addr: nat, len: nat, id: nat)
    requires 1 <= r.n == |r.descs| && r.tx == s % r.n && k <= s < k + r.n
    ensures At(Post(r, addr, len, id), s) == TxDesc(addr, len % 0x1_0000, false)
    ensures forall c :: k <= c < s ==> At(Post(r, addr, len, id), c) == At(r, c)
  {
    forall c | k <= c < s ensures At(Post(r, addr, len, id), c) == At(r, c) {
      SlotsDiffer(c, s, r.n);
    }
  }

  lemma RingWindow(r: TxRing, k: int, w: int, h: int, t: int, s: int)
    requires Window(r, k, w, h, t, s)
    ensures Window(Ring(r), k, w, h, s, s)
    ensures forall c: nat :: At(Ring(r), c) == At(r, c)
  {
    forall c: nat ensures At(Ring(r), c) == At(r, c) {
    }
  }

  lemma SetCleanWindow(r: TxRing, k: int, w: int, h: int, t: int, s: int, clean: nat)
    requires Window(r, k, w, h, t, s) && clean < r.n
    ensures Window(r.(clean := clean), k, w, h, t, s)
    ensures forall c: nat :: At(r.(clean := clean), c) == At(r, c)
  {
    forall c: nat ensures At(r.(clean := clean), c) == At(r, c) {
    }
  }

  lemma FetchWindow(r: TxRing, k: int, w: int, h: int, t: int, s: int)
    requires Window(r, k, w, h, t, s) && r.head != r.tail
    ensures h < t && Window(NicStep(r, Fetch), k, w, h + 1, t, s)
    ensures r.descs[r.head] == At(r, h)
    ensures forall c: nat :: At(NicStep(r, Fetch), c) == At(r, c)
  {
    var r' := NicStep(r, Fetch);
    WrapCounter(h, r.head, r.n);
    NicStepShape(r, Fetch);
    forall c: nat ensures At(r', c) == At(r, c) {
    }
  }

  lemma WriteBackWindow(r: TxRing, k: int, w: int, h: int, t: int, s: int, a: nat, l: nat)
    requires Window(r, k, w, h, t, s) && r.wb != r.head
    ensures w < h && Window(NicStep(r, WriteBack(a, l)), k, w + 1, h, t, s)
    ensures forall c :: k <= c < s && c != w ==> At(NicStep(r, WriteBack(a, l)), c) == At(r, c)
  {
    var r' := NicStep(r, WriteBack(a, l));
    WrapCounter(w, r.wb, r.n);
    NicStepShape(r, WriteBack(a, l));
    forall c | k <= c < s && c != w ensures At(r', c) == At(r, c) {
      SlotsDiffer(c, w, r.n);
    }
  }

  /** The loop's measure counts the ids in flight. */
  lemma CleanableIsInFlight(r: TxRing, clean: nat, k: int, w: int, h: int, t: int, s: int)
    requires Window(r, k, w, h, t, s) && clean == k % r.n
    ensures Cleanable(r, clean) == |r.inUse|
  {
    CleanableIsDistance(r, clean);
    ModShift(k, s - k, r.n);
    SlotAhead(clean, s - k, r.n);
  }

  /** The slot a pass tests is that of the 32nd oldest id in flight, never one left over from
      an earlier lap. */
  lemma TestedSlot(r: TxRing, clean: nat, k: int, w: int, h: int, t: int, s: int)
    requires Window(r, k, w, h, t, s) && clean == k % r.n && |r.inUse| >= TX_CLEAN_BATCH
    ensures BatchEnd(r, clean) < r.n && r.descs[BatchEnd(r, clean)] == At(r, k + 31)
    ensures WrapRing(BatchEnd(r, clean), r.n) == (k + 32) % r.n
  {
    CleanableIsInFlight(r, clean, k, w, h, t, s);
    BatchAdvances(r, clean, true);
    ModShift(k, 31, r.n);
    ModShift(k, 32, r.n);
  }

  /** A pass frees a batch exactly when the NIC is done with the 32 oldest ids in flight,
      although only the last of their Done bits is read. */
  lemma BatchReadyExact(r: TxRing, clean: nat, k: int, w: int, h: int, t: int, s: int)
    requires Window(r, k, w, h, t, s) && clean == k % r.n
    ensures BatchReady(r, clean) <==> k + TX_CLEAN_BATCH <= w
  {
    CleanableIsInFlight(r, clean, k, w, h, t, s);
    if |r.inUse| >= TX_CLEAN_BATCH {
      TestedSlot(r, clean, k, w, h, t, s);
    }
  }

  /** Whichever of its two branches drains, a pass takes exactly the 32 oldest ids. */
  lemma BatchWindow(r: TxRing, clean: nat, k: int, w: int, h: int, t: int, s: int)
    requires Window(r, k, w, h, t, s) && clean == k % r.n && BatchReady(r, clean)
    ensures |r.inUse| >= TX_CLEAN_BATCH && Drained(r, true) == r.inUse[..TX_CLEAN_BATCH]
    ensures AfterBatch(r, true).inUse == r.inUse[TX_CLEAN_BATCH..]
    ensures Window(AfterBatch(r, true), k + TX_CLEAN_BATCH, w, h, t, s)
    ensures WrapRing(BatchEnd(r, clean), r.n) == (k + TX_CLEAN_BATCH) % r.n
    ensures forall c: nat :: At(AfterBatch(r, true), c) == At(r, c)
  {
    var r' := AfterBatch(r, true);
    BatchReadyExact(r, clean, k, w, h, t, s);
    TestedSlot(r, clean, k, w, h, t, s);
    forall c: nat ensures At(r', c) == At(r, c) {
    }
  }

  // ---- a whole call ----

  lemma NicStepWindow(r: TxRing, step: TxNicStep, k: int, w: int, h: int, t: int, s: int) returns (w': int, h': int)
    requires Window(r, k, w, h, t, s)
    ensures Window(NicStep(r, step), k, w', h', t, s) && w <= w' && h <= h'
  {
    w', h' := w, h;
    match step {
      case Fetch => if r.head != r.tail { FetchWindow(r, k, w, h, t, s); h' := h + 1; }
      case WriteBack(a, l) => if r.wb != r.head { WriteBackWindow(r, k, w, h, t, s, a, l); w' := w + 1; }
    }
  }

  /** NIC activity only moves the NIC's counters, forward. */
  lemma {:induction false} NicRunWindow(r: TxRing, steps: seq<TxNicStep>, k: int, w: int, h: int, t: int, s: int)
    returns (w': int, h': int)
    requires Window(r, k, w, h, t, s)
    ensures Window(NicRun(r, steps), k, w', h', t, s) && w <= w' && h <= h'
    ensures steps == [] ==> w' == w
    decreases |steps|
  {
    w', h' := w, h;
    if steps != [] {
      w', h' := NicStepWindow(r, steps[0], k, w, h, t, s);
      w', h' := NicRunWindow(NicStep(r, steps[0]), steps[1..], k, w', h', t, s);
    }
  }

  /** What a call frees: a whole number of batches, oldest ids first, every batch completed at `w'`
      and nothing else; the clean index moves along. */
  ghost predicate Frees(r: TxRing, out: Recycled, k: int, w: int, w': int, h': int, t: int, s: int)
    requires r.n >= 1
  {
    var m := TX_CLEAN_BATCH * out.batches;
    Window(out.ring, k + m, w', h', t, s) && out.ring.n == r.n && out.ring.clean == (k + m) % r.n
    && m <= |r.inUse| && out.freed == r.inUse[..m] && out.ring.inUse == r.inUse[m..]
    && w <= w' && k + m <= w' < k + m + TX_CLEAN_BATCH
  }

  /** One call of `recycle_tx_buffers` with the NIC at work: it frees exactly the whole batches the
      NIC has completed, `w'`, when the call reads a status for the last time. */
  lemma {:induction false} RecycleFrees(r: TxRing, clean: nat, nic: nat -> seq<TxNicStep>, j: nat,
                                        k: int, w: int, h: int, t: int, s: int)
    returns (w': int, h': int)
    requires Window(r, k, w, h, t, s) && clean == k % r.n
    ensures Frees(r, Recycle(r, clean, true, nic, j), k, w, w', h', t, s)
    ensures IsQuiet(nic) ==> w' == w
    decreases |r.inUse|, 1
  {
    w', h' := NicRunWindow(r, nic(j), k, w, h, t, s);
    var r' := NicRun(r, nic(j));
    BatchReadyExact(r', clean, k, w', h', t, s);
    if BatchReady(r', clean) {
      w', h' := RecycleFreesBatch(r, clean, nic, j, k, w, w', h', t, s);
    } else {
      FreesNothing(r, r', clean, k, w, w', h', t, s);
    }
  }

  /** The case of a pass that finds a batch ready. */
  lemma {:induction false} RecycleFreesBatch(r: TxRing, clean: nat, nic: nat -> seq<TxNicStep>, j: nat,
                                             k: int, w: int, w1: int, h1: int, t: int, s: int)
    returns (w': int, h': int)
    requires Shape(r) && clean == k % r.n && w <= w1
    requires Window(NicRun(r, nic(j)), k, w1, h1, t, s) && BatchReady(NicRun(r, nic(j)), clean)
    ensures Frees(r, Recycle(r, clean, true, nic, j), k, w, w', h', t, s)
    ensures IsQuiet(nic) ==> w' == w1
    decreases |r.inUse|, 0
  {
    var r' := NicRun(r, nic(j));
    BatchWindow(r', clean, k, w1, h1, t, s);
    RecycleUnfolds(r, clean, true, nic, j);
    var rest, clean' := AfterBatch(r', true), WrapRing(BatchEnd(r', clean), r'.n);
    w', h' := RecycleFrees(rest, clean', nic, j + 1, k + 32, w1, h1, t, s);
    FreesOneMore(r, rest, Recycle(rest, clean', true, nic, j + 1), k, w, w1, w', h', t, s);
  }

  lemma FreesNothing(r: TxRing, r': TxRing, clean: nat, k: int, w: int, w': int, h': int, t: int, s: int)
    requires Window(r', k, w', h', t, s) && clean == k % r'.n && r'.n == r.n && r'.inUse == r.inUse
    requires w <= w' && k <= w' < k + 32
    ensures Frees(r, Recycled(r'.(clean := clean), [], 0), k, w, w', h', t, s)
  {
    SetCleanWindow(r', k, w', h', t, s, clean);
  }

  lemma FreesOneMore(r: TxRing, rest: TxRing, out: Recycled, k: int, w: int, w1: int, w': int, h': int, t: int, s: int)
    requires r.n == rest.n >= 1 && |r.inUse| >= 32 && rest.inUse == r.inUse[32..] && w <= w1
    requires Frees(rest, out, k + 32, w1, w', h', t, s)
    ensures Frees(r, Recycled(out.ring, r.inUse[..32] + out.freed, out.batches + 1), k, w, w', h', t, s)
  {
    var m := TX_CLEAN_BATCH * out.batches;
    assert r.inUse[..32] + r.inUse[32..][..m] == r.inUse[..m + 32];
    assert r.inUse[32..][m..] == r.inUse[m + 32..];
  }

  /** One pass of the loop, then the rest of it. */
  lemma RecycleUnfolds(r: TxRing, clean: nat, hasPool: bool, nic: nat -> seq<TxNicStep>, j: nat)
    requires Shape(r) && clean < r.n && BatchReady(NicRun(r, nic(j)), clean)
    ensures var r' := NicRun(r, nic(j));
      var rest, clean' := AfterBatch(r', hasPool), WrapRing(BatchEnd(r', clean), r'.n);
      Shape(rest) && clean' < r.n && Cleanable(rest, clean') < Cleanable(r, clean)
      && var out := Recycle(rest, clean', hasPool, nic, j + 1);
      Recycle(r, clean, hasPool, nic, j) == Recycled(out.ring, Drained(r', hasPool) + out.freed, out.batches + 1)
  {
    BatchAdvances(NicRun(r, nic(j)), clean, hasPool);
  }

  /** A NIC that does nothing during a call. */
  ghost predicate IsQuiet(nic: nat -> seq<TxNicStep>) {
    forall i :: nic(i) == []
  }

  /** A call takes the `b` oldest batches, moves the clean index past them, and leaves the driver's
      other fields alone. */
  ghost predicate TakesBatches(r: TxRing, out: Recycled, b: nat)
    requires r.n >= 1
  {
    var m := TX_CLEAN_BATCH * b;
    m <= |r.inUse| && out.batches == b && out.freed == r.inUse[..m] && out.ring.inUse == r.inUse[m..]
    && out.ring.clean == (r.clean + m) % r.n && out.ring.n == r.n && out.ring.tx == r.tx && out.ring.tail == r.tail
  }

  /** Whatever the NIC does during the call: with `w'` the descriptors it has completed at the last
      status read, one call frees exactly the 32 * floor((w' - k) / 32) oldest ids. With the NIC
      quiet, `w'` is what was complete at the start, and nothing else on the ring changes. */
  lemma RecycleExact(r: TxRing, hasPool: bool, nic: nat -> seq<TxNicStep>, k: int, w: int, h: int, t: int, s: int)
    returns (w': int, h': int)
    requires Window(r, k, w, h, t, s) && r.clean == k % r.n && (r.inUse != [] ==> hasPool)
    ensures var out := Recycle(r, r.clean, hasPool, nic, 0);
      w <= w' && TakesBatches(r, out, (w' - k) / TX_CLEAN_BATCH)
      && Window(out.ring, k + |out.freed|, w', h', t, s)
      && (IsQuiet(nic) ==> w' == w && out.ring == r.(inUse := out.ring.inUse, clean := out.ring.clean))
  {
    if !hasPool {
      EmptyRecycles(r, nic, k, w, h, t, s);
    }
    w', h' := RecycleFrees(r, r.clean, nic, 0, k, w, h, t, s);
    FreesQuotient(r, Recycle(r, r.clean, true, nic, 0), k, w, w', h', t, s);
    if IsQuiet(nic) {
      QuietRecycle(r, r.clean, nic, 0);
    }
  }

  lemma FreesQuotient(r: TxRing, out: Recycled, k: int, w: int, w': int, h': int, t: int, s: int)
    requires r.n >= 1 && w >= k >= 0 && r.clean == k % r.n && Frees(r, out, k, w, w', h', t, s)
    requires out.ring.tx == r.tx && out.ring.tail == r.tail
    ensures TakesBatches(r, out, (w' - k) / TX_CLEAN_BATCH) && |out.freed| == TX_CLEAN_BATCH * out.batches
  {
    assert out.batches == (w' - k) / TX_CLEAN_BATCH;
    ModShift(k, TX_CLEAN_BATCH * out.batches, r.n);
  }

  lemma {:induction false} QuietRecycle(r: TxRing, clean: nat, nic: nat -> seq<TxNicStep>, j: nat)
    requires Shape(r) && clean < r.n && IsQuiet(nic)
    ensures var out := Recycle(r, clean, true, nic, j);
      out.ring == r.(inUse := out.ring.inUse, clean := out.ring.clean)
    decreases Cleanable(r, clean)
  {
    assert nic(j) == [];
    if BatchReady(r, clean) {
      BatchAdvances(r, clean, true);
      QuietRecycle(AfterBatch(r, true), WrapRing(BatchEnd(r, clean), r.n), nic, j + 1);
      RecycleUnfolds(r, clean, true, nic, j);
    }
  }

  /** With nothing in flight it does not matter whether the queue has a pool. */
  lemma EmptyRecycles(r: TxRing, nic: nat -> seq<TxNicStep>, k: int, w: int, h: int, t: int, s: int)
    requires Window(r, k, w, h, t, s) && r.clean == k % r.n && r.inUse == []
    ensures Recycle(r, r.clean, false, nic, 0) == Recycle(r, r.clean, true, nic, 0)
  {
    var w', h' := NicRunWindow(r, nic(0), k, w, h, t, s);
    BatchReadyExact(NicRun(r, nic(0)), r.clean, k, w', h', t, s);
  }

  /** On a ring of 64 slots or more, a full queue whose descriptors are all complete gets all
      but 31 of its ids freed by one call, and can send again. */
  lemma LargeRingRecovers(r: TxRing, nic: nat -> seq<TxNicStep>, k: int, w: int, h: int, t: int, s: int)
    requires Window(r, k, w, h, t, s) && r.clean == k % r.n && !CanSend(r) && w == s && r.n >= 64
    ensures var out := Recycle(r, r.clean, true, nic, 0);
      |out.freed| == r.n - 32 && |out.ring.inUse| == 31 && CanSend(out.ring)
  {
    CanSendExact(r, k, w, h, t, s);
    LargePowerOfTwo(r.n);
    var w', h' := RecycleFrees(r, r.clean, nic, 0, k, w, h, t, s);
    FullRingFrees(r, Recycle(r, r.clean, true, nic, 0), k, w', h', t, s);
  }

  lemma FullRingFrees(r: TxRing, out: Recycled, k: int, w': int, h': int, t: int, s: int)
    requires r.n >= 64 && r.n % 32 == 0 && s - k == |r.inUse| == r.n - 1 && Frees(r, out, k, s, w', h', t, s)
    ensures |out.freed| == r.n - 32 && |out.ring.inUse| == 31 && CanSend(out.ring)
  {
    AllButOneBatch(r.n, out.batches);
    CanSendExact(out.ring, k + TX_CLEAN_BATCH * out.batches, w', h', t, s);
  }

  lemma AllButOneBatch(n: nat, b: nat)
    requires n % 32 == 0 && TX_CLEAN_BATCH * b <= n - 1 < TX_CLEAN_BATCH * b + 32
    ensures TX_CLEAN_BATCH * b == n - 32
  {
    var q := n / 32;
    assert n == 32 * q;
    assert b == q - 1;
  }

  lemma LargePowerOfTwo(n: nat)
    requires IsPowerOfTwo(n) && n >= 32
    ensures n % 32 == 0
  {
    var k: nat :| n == Pow2(k);
    PowersFrom32(k);
  }

  lemma {:induction false} PowersFrom32(k: nat)
    ensures k >= 5 ==> Pow2(k) % 32 == 0
    ensures k < 5 ==> Pow2(k) < 32
  {
    SmallPowers();
    if k > 5 {
      PowersFrom32(k - 1);
    } else {
      assert k in {0, 1, 2, 3, 4, 5};
    }
  }

  lemma SmallPowers()
    ensures Pow2(0) == 1 && Pow2(1) == 2 && Pow2(2) == 4 && Pow2(3) == 8 && Pow2(4) == 16 && Pow2(5) == 32
  {
    assert Pow2(1) == 2 && Pow2(2) == 4 && Pow2(3) == 8;
  }

  /** On a ring of 32 slots or fewer no pass ever frees anything, whatever the NIC has done. */
  lemma SmallRingNeverReady(r: TxRing, clean: nat)
    requires Shape(r) && clean < r.n && r.n <= TX_CLEAN_BATCH
    ensures !BatchReady(r, clean)
  {
    CleanableIsDistance(r, clean);
  }
}
