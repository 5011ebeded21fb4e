/** The receive ring of one queue and what one driver or NIC action does to it. */
module Receive {
  import opened RingIndex
  import opened Buffers
  import opened Results

  /** The parts of a receive descriptor the protocol depends on. `addr` is what the address
      word holds: the buffer's address while armed, arbitrary write-back data once done. */
  datatype RxDesc = RxDesc(addr: nat, len: nat, done: bool, eop: bool)

  /** `inUse` and `rx` belong to the driver; `head` is RDH, `wb` the slot the NIC writes back
      next, `tail` is RDT. */
  datatype RxRing = RxRing(n: nat, descs: seq<RxDesc>, inUse: seq<nat>, rx: nat,
                           head: nat, wb: nat, tail: nat)

  ghost predicate Shape(r: RxRing) {
    1 <= r.n < 0x8000_0000 && IsPowerOfTwo(r.n) && |r.descs| == r.n && |r.inUse| == r.n
    && r.rx < r.n && r.head < r.n && r.wb < r.n && r.tail < r.n
  }

  predicate CanRecv(r: RxRing)
    requires r.rx < |r.descs|
  {
    r.descs[r.rx].done
  }

  /** `length()` reads bits 32 to 46 of the write-back word: fifteen bits. */
  function SeenLength(d: RxDesc): nat {
    d.len % 0x8000
  }

  /** The fresh buffer `buf` takes the slot's place in `bufs_in_use`. */
  function Take(r: RxRing, rx: nat, buf: nat): RxRing
    requires rx < |r.inUse|
  {
    r.(inUse := r.inUse[rx := buf])
  }

  /** `set_packet_address` and `reset_status` on the slot just delivered. */
  function Rearm(r: RxRing, rx: nat, addr: nat): RxRing
    requires rx < |r.descs|
  {
    r.(descs := r.descs[rx := RxDesc(addr, 0, false, false)])
  }

  /** The end of `receive_packets`. */
  function Finish(r: RxRing, rx: nat, last: nat): RxRing {
    if rx != last then r.(rx := rx, tail := last) else r
  }

  /** The NIC has placed a frame in the buffer of the slot at RDH. */
  function Fill(r: RxRing): RxRing
    requires r.n >= 1
  {
    if r.head == r.tail then r else r.(head := WrapRing(r.head, r.n))
  }

  /** The NIC overwrites the oldest filled descriptor with its write-back form: length and
      Done and EOP, the address word clobbered. */
  function WriteBack(r: RxRing, len: nat, junk: nat): RxRing
    requires r.n >= 1 && r.wb < |r.descs|
  {
    if r.wb == r.head then r
    else r.(descs := r.descs[r.wb := RxDesc(junk, len, true, true)], wb := WrapRing(r.wb, r.n))
  }

  // ---- the window under each action ----

  /** Descriptor of the slot counter `c` falls on. */
  function At(r: RxRing, c: nat): RxDesc
    requires 1 <= r.n == |r.descs|
  {
    r.descs[c % r.n]
  }

  /** Buffer of the slot counter `c` falls on. */
  function BufOf(r: RxRing, c: nat): nat
    requires 1 <= r.n == |r.inUse|
  {
    r.inUse[c % r.n]
  }

  /** The counters behind the indices: `b` packets delivered when RDT was last written, `d`
      delivered, slots armed up to `e`, `w` descriptors written back, `h` buffers filled. The
      NIC stays behind the tail, which is n-1 ahead of `b`; Done and EOP are set exactly from
      `d` up to `w`. */
  ghost predicate Window(r: RxRing, b: int, d: int, e: int, w: int, h: int) {
    Shape(r) && 0 <= b <= d <= w <= h < b + r.n && d <= e <= d + r.n
    && r.head == h % r.n && r.wb == w % r.n && r.tail == (b + r.n - 1) % r.n
    && (forall c :: d <= c < w ==> At(r, c).done && At(r, c).eop)
    && (forall c :: w <= c < e ==> !At(r, c).done)
  }

  /** `can_recv` holds exactly while a completed frame waits to be delivered. */
  lemma CanRecvExact(r: RxRing, b: int, d: int, e: int, w: int, h: int)
    requires Window(r, b, d, e, w, h) && r.rx == d % r.n && d < e
    ensures CanRecv(r) <==> d < w
  {
    assert r.descs[r.rx] == At(r, d);
  }

  lemma TakeWindow(r: RxRing, b: int, d: int, w: int, h: int, rx: nat, buf: nat)
    requires Window(r, b, d, d + r.n, w, h) && rx == d % r.n && d < w
    ensures Window(Take(r, rx, buf), b, d + 1, d + r.n, w, h)
    ensures BufOf(Take(r, rx, buf), d + r.n) == buf
    ensures forall c :: d < c < d + r.n ==> BufOf(Take(r, rx, buf), c) == BufOf(r, c)
    ensures forall c: nat :: At(Take(r, rx, buf), c) == At(r, c)
  {
    var r' := Take(r, rx, buf);
    ModLap(d, r.n);
    forall c | d < c < d + r.n ensures BufOf(r', c) == BufOf(r, c) {
      SlotsDiffer(c, d, r.n);
    }
    forall c: nat ensures At(r', c) == At(r, c) {
    }
  }

  lemma RearmWindow(r: RxRing, b: int, d: int, w: int, h: int, rx: nat, addr: nat)
    requires Window(r, b, d + 1, d + r.n, w, h) && b <= d && rx == d % r.n
    ensures Window(Rearm(r, rx, addr), b, d + 1, d + 1 + r.n, w, h)
    ensures At(Rearm(r, rx, addr), d + r.n) == RxDesc(addr, 0, false, false) && rx == (d + r.n) % r.n
    ensures forall c :: d < c < d + r.n ==> At(Rearm(r, rx, addr), c) == At(r, c)
    ensures forall c: nat :: BufOf(Rearm(r, rx, addr), c) == BufOf(r, c)
  {
    RearmElsewhere(r, d, addr);
    forall c: nat ensures BufOf(Rearm(r, rx, addr), c) == BufOf(r, c) {
    }
  }

  lemma RearmElsewhere(r: RxRing, d: nat, addr: nat)
    requires 1 <= r.n == |r.descs|
    ensures var r' := Rearm(r, d % r.n, addr);
      At(r', d + r.n) == RxDesc(addr, 0, false, false) && d % r.n == (d + r.n) % r.n
      && forall c :: d < c < d + r.n ==> At(r', c) == At(r, c)
  {
    var r' := Rearm(r, d % r.n, addr);
    ModLap(d, r.n);
    forall c | d < c < d + r.n ensures At(r', c) == At(r, c) {
      SlotsDiffer(c, d, r.n);
    }
  }

  /** The index variables of the loop after `d - b` deliveries. */
  ghost predicate LoopIndices(r: RxRing, b: int, d: int, rx: nat, last: nat)
    requires r.n >= 1
  {
    r.rx == b % r.n && rx == d % r.n && last == if d == b then rx else (d - 1) % r.n
  }

  /** `rx_index != last_rx_index` holds exactly when the call delivered a packet. */
  lemma MovedExact(r: RxRing, b: int, d: int, w: int, h: int, rx: nat, last: nat)
    requires Window(r, b, d, d + r.n, w, h) && LoopIndices(r, b, d, rx, last)
    ensures rx != last <==> d > b
  {
    if d > b {
      SlotsDiffer(d, d - 1, r.n);
    }
  }

  lemma FinishWindow(r: RxRing, b: int, d: int, w: int, h: int, rx: nat, last: nat)
    requires Window(r, b, d, d + r.n, w, h) && LoopIndices(r, b, d, rx, last)
    ensures Window(Finish(r, rx, last), d, d, d + r.n, w, h) && Finish(r, rx, last).rx == rx
    ensures forall c: nat :: At(Finish(r, rx, last), c) == At(r, c) && BufOf(Finish(r, rx, last), c) == BufOf(r, c)
  {
    MovedExact(r, b, d, w, h, rx, last);
    var r' := Finish(r, rx, last);
    if d > b {
      ModLap(d - 1, r.n);
    }
    forall c: nat ensures At(r', c) == At(r, c) && BufOf(r', c) == BufOf(r, c) {
    }
  }

  lemma FillWindow(r: RxRing, b: int, d: int, e: int, w: int, h: int)
    requires Window(r, b, d, e, w, h) && r.head != r.tail
    ensures h < b + r.n - 1 && Window(Fill(r), b, d, e, w, h + 1)
    ensures r.descs[r.head] == At(r, h)
    ensures forall c: nat :: At(Fill(r), c) == At(r, c) && BufOf(Fill(r), c) == BufOf(r, c)
  {
    var r' := Fill(r);
    WrapCounter(h, r.head, r.n);
    WrapBelow(r.head, r.n);
    forall c: nat ensures At(r', c) == At(r, c) && BufOf(r', c) == BufOf(r, c) {
    }
  }

  lemma WriteBackWindow(r: RxRing, b: int, d: int, e: int, w: int, h: int, len: nat, junk: nat)
    requires Window(r, b, d, e, w, h) && r.wb != r.head && h <= e
    ensures w < h && Window(WriteBack(r, len, junk), b, d, e, w + 1, h)
    ensures At(WriteBack(r, len, junk), w) == RxDesc(junk, len, true, true)
    ensures forall c :: d <= c < e && c != w ==> At(WriteBack(r, len, junk), c) == At(r, c)
    ensures forall c: nat :: BufOf(WriteBack(r, len, junk), c) == BufOf(r, c)
  {
    var r' := WriteBack(r, len, junk);
    WrapCounter(w, r.wb, r.n);
    WrapBelow(r.wb, r.n);
    forall c | d <= c < e && c != w ensures At(r', c) == At(r, c) {
      SlotsDiffer(c, w, r.n);
    }
    forall c: nat ensures BufOf(r', c) == BufOf(r, c) {
    }
  }

  // ---- a whole call ----

  datatype RxNicStep = Filled | WrittenBack(len: nat, junk: nat)

  function NicStep(r: RxRing, step: RxNicStep): RxRing
    requires r.n >= 1 && r.wb < |r.descs|
  {
    match step
    case Filled => Fill(r)
    case WrittenBack(len, junk) => WriteBack(r, len, junk)
  }

  lemma NicStepShape(r: RxRing, step: RxNicStep)
    requires Shape(r)
    ensures Shape(NicStep(r, step))
  {
    WrapBelow(r.head, r.n);
    WrapBelow(r.wb, r.n);
  }

  function NicRun(r: RxRing, steps: seq<RxNicStep>): (r': RxRing)
    requires Shape(r)
    ensures Shape(r') && r'.n == r.n && r'.inUse == r.inUse && r'.rx == r.rx && r'.tail == r.tail
    decreases |steps|
  {
    if steps == [] then r
    else NicStepShape(r, steps[0]); NicRun(NicStep(r, steps[0]), steps[1..])
  }

  /** `given` lists the buffers handed to the closure and the lengths reported with them. */
  datatype Received = Received(ring: RxRing, pool: Pool, given: seq<(nat, nat)>)

  /** The caller's closure: what it does with the pool in pass `j` when shown entry `id`. Keeping
      the packet is doing nothing; dropping it is giving `id` back. */
  type Closure = (nat, nat) -> seq<PoolUse>

  /** What one pass over the slot `rx` does: nothing more to deliver, or a packet delivered and
      the slot armed again. */
  datatype Pass = Stop | Crash | Deliver(ring: RxRing, pool: Pool, given: (nat, nat))

  function OnePass(r: RxRing, p: Pool, rx: nat, f: Closure, j: nat): Pass
    requires Shape(r) && rx < r.n
  {
    if !r.descs[rx].done then Stop
    else if !r.descs[rx].eop then Crash
    else if p.free == [] then Stop
    else
      var (p', buf) := PopFree(p);
      var idx := r.inUse[rx];
      if idx >= |p.phys| || buf >= |p.phys| then Crash
      else match UsePool(p', f(j, idx))
        case Ok(p'') => Deliver(Rearm(Take(r, rx, buf), rx, p.phys[buf]), p'', (idx, SeenLength(r.descs[rx])))
        case _ => Crash
  }

  /** The loop of `receive_packets` from pass `j` on. The NIC performs `nic(j)` before the
      status read of pass `j`. */
  function ReceiveLoop(r: RxRing, p: Pool, budget: nat, rx: nat, last: nat,
                       f: Closure, nic: nat -> seq<RxNicStep>, j: nat): Result<Received>
    requires Shape(r) && rx < r.n && last < r.n
    decreases budget, 1
  {
    if budget == 0 then Ok(Received(Finish(r, rx, last), p, []))
    else PassResult(NicRun(r, nic(j)), p, budget, rx, last, f, nic, j)
  }

  /** From the status read of pass `j` on. */
  function PassResult(r: RxRing, p: Pool, budget: nat, rx: nat, last: nat,
                      f: Closure, nic: nat -> seq<RxNicStep>, j: nat): Result<Received>
    requires Shape(r) && rx < r.n && last < r.n && budget > 0
    decreases budget, 0
  {
    match OnePass(r, p, rx, f, j)
    case Stop => Ok(Received(Finish(r, rx, last), p, []))
    case Crash => Panic
    case Deliver(armed, p'', g) =>
      WrapBelow(rx, r.n);
      AddGiven(g, ReceiveLoop(armed, p'', budget - 1, WrapRing(rx, r.n), rx, f, nic, j + 1))
  }

  /** One pass of the loop, then the rest of it. */
  lemma LoopUnfolds(r: RxRing, p: Pool, budget: nat, rx: nat, last: nat, f: Closure, nic: nat -> seq<RxNicStep>, j: nat, pass: Pass)
    requires Shape(r) && rx < r.n && last < r.n && budget > 0 && pass == OnePass(NicRun(r, nic(j)), p, rx, f, j)
    ensures WrapRing(rx, r.n) < r.n
    ensures match pass
            case Stop => ReceiveLoop(r, p, budget, rx, last, f, nic, j) == Ok(Received(Finish(NicRun(r, nic(j)), rx, last), p, []))
            case Crash => ReceiveLoop(r, p, budget, rx, last, f, nic, j) == Panic
            case Deliver(armed, p', g) =>
              Shape(armed) && armed.n == r.n
              && ReceiveLoop(r, p, budget, rx, last, f, nic, j)
                 == AddGiven(g, ReceiveLoop(armed, p', budget - 1, WrapRing(rx, r.n), rx, f, nic, j + 1))
  {
    WrapBelow(rx, r.n);
  }

  /** A frame that does not end in its buffer makes the call panic, free entries or not. */
  lemma MissingEopPanics(r: RxRing, p: Pool, budget: nat, rx: nat, last: nat, f: Closure, nic: nat -> seq<RxNicStep>, j: nat)
    requires Shape(r) && rx < r.n && last < r.n && budget > 0
    requires NicRun(r, nic(j)).descs[rx].done && !NicRun(r, nic(j)).descs[rx].eop
    ensures ReceiveLoop(r, p, budget, rx, last, f, nic, j) == Panic
  {
    LoopUnfolds(r, p, budget, rx, last, f, nic, j, OnePass(NicRun(r, nic(j)), p, rx, f, j));
  }

  function AddGiven(g: (nat, nat), out: Result<Received>): Result<Received> {
    if out.Ok? then Ok(out.value.(given := [g] + out.value.given)) else out
  }

  /** The slot's entry is the closure's, and the top of the stack is the slot's. */
  function HandOver(h: Holding, r: RxRing, rx: nat): Holding
    requires rx < |r.inUse|
  {
    if h.pool.free == [] then h else Holding(PopFree(h.pool).0, h.mine + {r.inUse[rx]})
  }

  function HoldAfter(h: Holding, r: RxRing, rx: nat, f: Closure, j: nat): Holding
    requires rx < |r.inUse|
  {
    HoldAll(HandOver(h, r, rx), f(j, r.inUse[rx]))
  }

  /** Throughout the call the closure gives back only entries that are the client's: those it has
      been shown, those it has taken, and `h.mine` from before. */
  predicate Lawful(r: RxRing, h: Holding, budget: nat, rx: nat, f: Closure, nic: nat -> seq<RxNicStep>, j: nat)
    requires Shape(r) && rx < r.n
    decreases budget, 1
  {
    budget > 0 ==> LawfulFrom(NicRun(r, nic(j)), h, budget, rx, f, nic, j)
  }

  predicate LawfulFrom(r: RxRing, h: Holding, budget: nat, rx: nat, f: Closure, nic: nat -> seq<RxNicStep>, j: nat)
    requires Shape(r) && rx < r.n && budget > 0
    decreases budget, 0
  {
    LawfulPass(r, h, rx, f, j)
    && match OnePass(r, h.pool, rx, f, j)
       case Deliver(armed, _, _) =>
         WrapBelow(rx, r.n);
         Lawful(armed, HoldAfter(h, r, rx, f, j), budget - 1, WrapRing(rx, r.n), f, nic, j + 1)
       case _ => true
  }

  predicate LawfulPass(r: RxRing, h: Holding, rx: nat, f: Closure, j: nat)
    requires rx < |r.inUse| == |r.descs|
  {
    r.descs[rx].done && h.pool.free != [] ==> OwnsAll(HandOver(h, r, rx), f(j, r.inUse[rx]))
  }

  // ---- a NIC that reports the right lengths ----

  function WrittenOnce(r: RxRing, step: RxNicStep, w: nat): nat {
    if step.WrittenBack? && r.wb != r.head then w + 1 else w
  }

  /** Frames written back after some NIC activity, `w` of them before it. */
  function WrittenAfter(r: RxRing, steps: seq<RxNicStep>, w: nat): nat
    requires Shape(r)
    decreases |steps|
  {
    if steps == [] then w
    else NicStepShape(r, steps[0]); WrittenAfter(NicStep(r, steps[0]), steps[1..], WrittenOnce(r, steps[0], w))
  }

  /** Each write-back carries the length of the frame whose turn it is. */
  predicate Honest(r: RxRing, steps: seq<RxNicStep>, frames: nat -> Frame, w: nat)
    requires Shape(r)
    decreases |steps|
  {
    if steps == [] then true
    else
      NicStepShape(r, steps[0]);
      (steps[0].WrittenBack? && r.wb != r.head ==> steps[0].len == |frames(w)|)
      && Honest(NicStep(r, steps[0]), steps[1..], frames, WrittenOnce(r, steps[0], w))
  }

  /** The NIC is honest throughout a call. */
  predicate HonestCall(r: RxRing, p: Pool, budget: nat, rx: nat, f: Closure, nic: nat -> seq<RxNicStep>, j: nat,
                       frames: nat -> Frame, w: nat)
    requires Shape(r) && rx < r.n
    decreases budget, 1
  {
    budget > 0 ==>
      Honest(r, nic(j), frames, w)
      && HonestFrom(NicRun(r, nic(j)), p, budget, rx, f, nic, j, frames, WrittenAfter(r, nic(j), w))
  }

  predicate HonestFrom(r: RxRing, p: Pool, budget: nat, rx: nat, f: Closure, nic: nat -> seq<RxNicStep>, j: nat,
                       frames: nat -> Frame, w: nat)
    requires Shape(r) && rx < r.n && budget > 0
    decreases budget, 0
  {
    match OnePass(r, p, rx, f, j)
    case Deliver(armed, p', _) =>
      WrapBelow(rx, r.n);
      HonestCall(armed, p', budget - 1, WrapRing(rx, r.n), f, nic, j + 1, frames, w)
    case _ => true
  }

  lemma HandOverKeeps(h: Holding, r: RxRing, rx: nat)
    requires Exclusive(h, r.inUse) && h.pool.free != [] && rx < |r.inUse|
    ensures var buf := PopFree(h.pool).1;
      buf < |h.pool.phys| && r.inUse[rx] < |h.pool.phys| && Exclusive(HandOver(h, r, rx), r.inUse[rx := buf])
  {
    var (p', buf) := PopFree(h.pool);
    var h', others := HandOver(h, r, rx), r.inUse[rx := buf];
    assert forall i :: 0 <= i < |p'.free| ==> p'.free[i] == h.pool.free[i];
    assert h.pool.free[|h.pool.free| - 1] == buf && buf in h.pool.free;
    forall i | 0 <= i < |others| ensures others[i] !in h'.pool.free && others[i] !in h'.mine {
      if i != rx {
        assert others[i] == r.inUse[i] != r.inUse[rx];
      }
    }
  }

  lemma NicStepWindow(r: RxRing, step: RxNicStep, b: int, d: int, w: int, h: int)
    returns (w': int, h': int)
    requires Window(r, b, d, d + r.n, w, h)
    ensures Window(NicStep(r, step), b, d, d + r.n, w', h') && w <= w' && h <= h'
  {
    match step {
      case Filled =>
        w' := w;
        h' := FillStepWindow(r, b, d, w, h);
      case WrittenBack(len, junk) =>
        h' := h;
        w' := WriteBackStepWindow(r, len, junk, b, d, w, h);
    }
  }

  lemma FillStepWindow(r: RxRing, b: int, d: int, w: int, h: int) returns (h': int)
    requires Window(r, b, d, d + r.n, w, h)
    ensures Window(Fill(r), b, d, d + r.n, w, h') && h <= h'
  {
    h' := h;
    if r.head != r.tail {
      FillWindow(r, b, d, d + r.n, w, h);
      h' := h + 1;
    }
  }

  lemma WriteBackStepWindow(r: RxRing, len: nat, junk: nat, b: int, d: int, w: int, h: int) returns (w': int)
    requires Window(r, b, d, d + r.n, w, h)
    ensures Window(WriteBack(r, len, junk), b, d, d + r.n, w', h) && w <= w'
  {
    w' := w;
    if r.wb != r.head {
      WriteBackWindow(r, b, d, d + r.n, w, h, len, junk);
      w' := w + 1;
    }
  }

  lemma {:induction false} NicRunWindow(r: RxRing, steps: seq<RxNicStep>, b: int, d: int, w: int, h: int)
    returns (w': int, h': int)
    requires Window(r, b, d, d + r.n, w, h)
    ensures Window(NicRun(r, steps), b, d, d + r.n, w', h') && w <= w' && h <= h'
    ensures steps == [] ==> w' == w
    decreases |steps|
  {
    w', h' := w, h;
    if steps != [] {
      w', h' := NicStepWindow(r, steps[0], b, d, w, h);
      w', h' := NicRunWindow(NicStep(r, steps[0]), steps[1..], b, d, w', h');
    }
  }

  /** What a call achieves: it stops with the budget spent, with every frame delivered that is
      complete at the last status read (`w'`), or with no entry free. */
  ghost predicate Receives(out: Received, n: nat, budget: nat, d: int, w: int, w': int, h': int)
    requires n >= 1
  {
    var c := |out.given|;
    out.ring.n == n && Window(out.ring, d + c, d + c, d + c + n, w', h') && out.ring.rx == (d + c) % n
    && c <= budget && d + c <= w' && w <= w'
    && (c == budget || d + c == w' || out.pool.free == [])
  }

  /** A NIC that does nothing during a call. */
  ghost predicate IsQuiet(nic: nat -> seq<RxNicStep>) {
    forall i :: nic(i) == []
  }

  /** The call never panics, delivers as long as there is budget, a completed frame and a free
      entry, and keeps all entries apart, whatever a lawful closure does with the pool and whatever
      the NIC does meanwhile. */
  lemma {:induction false} ReceiveCount(r: RxRing, h: Holding, budget: nat, rx: nat, last: nat,
                                        f: Closure, nic: nat -> seq<RxNicStep>, j: nat,
                                        b: int, d: int, w: int, filled: int, out: Result<Received>)
    returns (w': int, filled': int, mine': set<nat>)
    requires Window(r, b, d, d + r.n, w, filled) && Exclusive(h, r.inUse) && LoopIndices(r, b, d, rx, last)
    requires Lawful(r, h, budget, rx, f, nic, j)
    requires out == ReceiveLoop(r, h.pool, budget, rx, last, f, nic, j)
    ensures out.Ok? && Receives(out.value, r.n, budget, d, w, w', filled')
    ensures Exclusive(Holding(out.value.pool, mine'), out.value.ring.inUse)
    ensures IsQuiet(nic) ==> w' == w
    decreases budget, 0
  {
    if budget == 0 {
      w', filled', mine' := w, filled, h.mine;
      NothingMore(r, h.pool, budget, rx, last, b, d, w, w, filled);
    } else {
      w', filled' := NicRunWindow(r, nic(j), b, d, w, filled);
      w', filled', mine' := CountFromPass(NicRun(r, nic(j)), h, budget, rx, last, f, nic, j, b, d, w, w', filled', out);
    }
  }

  /** The call from the status read of pass `j` on. */
  lemma {:induction false} CountFromPass(r: RxRing, h: Holding, budget: nat, rx: nat, last: nat,
                                         f: Closure, nic: nat -> seq<RxNicStep>, j: nat,
                                         b: int, d: int, w: int, w1: int, filled: int, out: Result<Received>)
    returns (w': int, filled': int, mine': set<nat>)
    requires Window(r, b, d, d + r.n, w1, filled) && Exclusive(h, r.inUse) && LoopIndices(r, b, d, rx, last) && w <= w1
    requires budget > 0 && LawfulFrom(r, h, budget, rx, f, nic, j)
    requires out == PassResult(r, h.pool, budget, rx, last, f, nic, j)
    ensures out.Ok? && Receives(out.value, r.n, budget, d, w, w', filled')
    ensures Exclusive(Holding(out.value.pool, mine'), out.value.ring.inUse)
    ensures IsQuiet(nic) ==> w' == w1
    decreases budget - 1, 2
  {
    PassDelivers(r, h, rx, f, j, b, d, w1, filled);
    match OnePass(r, h.pool, rx, f, j) {
      case Deliver(armed, p, g) =>
        w', filled', mine' := CountAfterPass(armed, HoldAfter(h, r, rx, f, j), g, budget, rx, f, nic, j, b, d, w, w1, filled);
      case _ =>
        w', filled', mine' := w1, filled, h.mine;
        NothingMore(r, h.pool, budget, rx, last, b, d, w, w1, filled);
    }
  }

  lemma {:induction false} CountAfterPass(armed: RxRing, h: Holding, g: (nat, nat), budget: nat, rx: nat,
                                          f: Closure, nic: nat -> seq<RxNicStep>, j: nat,
                                          b: int, d: int, w: int, w1: int, filled: int)
    returns (w': int, filled': int, mine': set<nat>)
    requires Window(armed, b, d + 1, d + 1 + armed.n, w1, filled) && Exclusive(h, armed.inUse) && budget > 0 && w <= w1
    requires rx < armed.n && WrapRing(rx, armed.n) < armed.n && LoopIndices(armed, b, d + 1, WrapRing(rx, armed.n), rx) && b <= d
    requires Lawful(armed, h, budget - 1, WrapRing(rx, armed.n), f, nic, j + 1)
    ensures var out := AddGiven(g, ReceiveLoop(armed, h.pool, budget - 1, WrapRing(rx, armed.n), rx, f, nic, j + 1));
      out.Ok? && Receives(out.value, armed.n, budget, d, w, w', filled')
      && Exclusive(Holding(out.value.pool, mine'), out.value.ring.inUse)
    ensures IsQuiet(nic) ==> w' == w1
    decreases budget - 1, 1
  {
    var rest := ReceiveLoop(armed, h.pool, budget - 1, WrapRing(rx, armed.n), rx, f, nic, j + 1);
    w', filled', mine' := ReceiveCount(armed, h, budget - 1, WrapRing(rx, armed.n), rx, f, nic, j + 1, b, d + 1, w1, filled, rest);
    OneMoreReceived(rest.value, g, armed.n, budget, d, w, w1, w', filled');
  }

  /** A pass delivers exactly when a completed frame and a free entry are there. */
  lemma PassDelivers(r: RxRing, h: Holding, rx: nat, f: Closure, j: nat, b: int, d: int, w: int, filled: int)
    requires Window(r, b, d, d + r.n, w, filled) && Exclusive(h, r.inUse) && rx == d % r.n && LawfulPass(r, h, rx, f, j)
    ensures var pass, h' := OnePass(r, h.pool, rx, f, j), HoldAfter(h, r, rx, f, j);
      if d < w && h.pool.free != [] then
        pass.Deliver? && pass.ring.n == r.n && pass.ring.rx == r.rx && Window(pass.ring, b, d + 1, d + 1 + r.n, w, filled)
        && pass.pool == h'.pool && Exclusive(h', pass.ring.inUse)
        && pass.given.0 == BufOf(r, d) && WrapRing(rx, r.n) == (d + 1) % r.n
      else pass.Stop?
  {
    assert r.descs[rx] == At(r, d);
    if d < w && h.pool.free != [] {
      HandOverKeeps(h, r, rx);
      var (p', buf) := PopFree(h.pool);
      UsesKeep(HandOver(h, r, rx), r.inUse[rx := buf], f(j, r.inUse[rx]));
      TakeWindow(r, b, d, w, filled, rx, buf);
      RearmWindow(Take(r, rx, buf), b, d, w, filled, rx, h.pool.phys[buf]);
      WrapCounter(d, rx, r.n);
    }
  }

  lemma NothingMore(r: RxRing, p: Pool, budget: nat, rx: nat, last: nat, b: int, d: int, w: int, w': int, filled: int)
    requires Window(r, b, d, d + r.n, w', filled) && w <= w' && LoopIndices(r, b, d, rx, last)
    requires budget == 0 || d == w' || p.free == []
    ensures Receives(Received(Finish(r, rx, last), p, []), r.n, budget, d, w, w', filled)
    ensures Finish(r, rx, last).inUse == r.inUse
  {
    FinishWindow(r, b, d, w', filled, rx, last);
  }

  lemma OneMoreReceived(rest: Received, g: (nat, nat), n: nat, budget: nat, d: int, w: int, w1: int, w': int, filled: int)
    requires n >= 1 && budget > 0 && w <= w1 && Receives(rest, n, budget - 1, d + 1, w1, w', filled)
    ensures Receives(rest.(given := [g] + rest.given), n, budget, d, w, w', filled)
  {
  }

  // ---- two closures ----

  ghost predicate KeepsAll(f: Closure) {
    forall j, id :: f(j, id) == []
  }

  ghost predicate DropsAll(f: Closure) {
    forall j, id :: f(j, id) == [Return(id)]
  }

  lemma {:induction false} SimpleIsLawful(r: RxRing, h: Holding, budget: nat, rx: nat, f: Closure, nic: nat -> seq<RxNicStep>, j: nat)
    requires Shape(r) && rx < r.n && (KeepsAll(f) || DropsAll(f))
    ensures Lawful(r, h, budget, rx, f, nic, j)
    decreases budget
  {
    if budget > 0 {
      var r' := NicRun(r, nic(j));
      var pass := OnePass(r', h.pool, rx, f, j);
      OwnsShown(HandOver(h, r', rx), r'.inUse[rx], f, j);
      WrapBelow(rx, r.n);
      if pass.Deliver? {
        SimpleIsLawful(pass.ring, HoldAfter(h, r', rx, f, j), budget - 1, WrapRing(rx, r.n), f, nic, j + 1);
      }
    }
  }

  lemma OwnsShown(h: Holding, id: nat, f: Closure, j: nat)
    requires KeepsAll(f) || DropsAll(f)
    ensures id in h.mine ==> OwnsAll(h, f(j, id))
  {
    assert f(j, id) == [] || f(j, id) == [Return(id)];
  }

  /** What is left on the stack after such a call. */
  lemma {:induction false} StackLeft(r: RxRing, p: Pool, budget: nat, rx: nat, last: nat,
                                     f: Closure, nic: nat -> seq<RxNicStep>, j: nat, out: Result<Received>)
    requires Shape(r) && rx < r.n && last < r.n
    requires out == ReceiveLoop(r, p, budget, rx, last, f, nic, j) && out.Ok?
    ensures KeepsAll(f) ==> |out.value.pool.free| + |out.value.given| == |p.free|
    ensures DropsAll(f) ==> |out.value.pool.free| == |p.free| && (p.free == [] ==> out.value.given == [])
    decreases budget
  {
    if budget > 0 && (KeepsAll(f) || DropsAll(f)) {
      var r' := NicRun(r, nic(j));
      var pass := OnePass(r', p, rx, f, j);
      LoopUnfolds(r, p, budget, rx, last, f, nic, j, pass);
      if pass.Deliver? {
        PassStack(r', p, rx, f, j);
        StackLeft(pass.ring, pass.pool, budget - 1, WrapRing(rx, r.n), rx, f, nic, j + 1,
                  ReceiveLoop(pass.ring, pass.pool, budget - 1, WrapRing(rx, r.n), rx, f, nic, j + 1));
      }
    }
  }

  lemma PassStack(r: RxRing, p: Pool, rx: nat, f: Closure, j: nat)
    requires Shape(r) && rx < r.n && OnePass(r, p, rx, f, j).Deliver?
    ensures p.free != []
    ensures KeepsAll(f) ==> |OnePass(r, p, rx, f, j).pool.free| == |p.free| - 1
    ensures DropsAll(f) ==> |OnePass(r, p, rx, f, j).pool.free| == |p.free|
  {
    var p', idx := PopFree(p).0, r.inUse[rx];
    if DropsAll(f) {
      assert f(j, idx) == [Return(idx)] && [Return(idx)][1..] == [];
      assert UsePool(p', f(j, idx)) == PushFree(p', idx);
    }
  }

  function Least(a: nat, b: nat): nat {
    if a <= b then a else b
  }

  /** Whatever the NIC does during the call: with `w'` the frames it has completed at the last
      status read, a closure that keeps every packet gets exactly as many as budget, completed
      frames and free entries allow; one that drops each at once is limited by the free entries only
      if there is none. With the NIC quiet, `w'` is what was complete at the start. */
  lemma ReceiveExact(r: RxRing, p: Pool, budget: nat, f: Closure, nic: nat -> seq<RxNicStep>, d: int, w: int, filled: int)
    returns (w': int, filled': int)
    requires Window(r, d, d, d + r.n, w, filled) && Exclusive(Holding(p, {}), r.inUse) && r.rx == d % r.n
    requires KeepsAll(f) || DropsAll(f)
    ensures var out := ReceiveLoop(r, p, budget, r.rx, r.rx, f, nic, 0);
      out.Ok? && w <= w' && (IsQuiet(nic) ==> w' == w)
      && Receives(out.value, r.n, budget, d, w, w', filled')
      && (KeepsAll(f) ==> |out.value.given| == Least(budget, Least(w' - d, |p.free|)))
      && (DropsAll(f) ==> |out.value.given| == if p.free == [] then 0 else Least(budget, w' - d))
  {
    var out := ReceiveLoop(r, p, budget, r.rx, r.rx, f, nic, 0);
    SimpleIsLawful(r, Holding(p, {}), budget, r.rx, f, nic, 0);
    var mine';
    w', filled', mine' := ReceiveCount(r, Holding(p, {}), budget, r.rx, r.rx, f, nic, 0, d, d, w, filled, out);
    StackLeft(r, p, budget, r.rx, r.rx, f, nic, 0, out);
  }
}
