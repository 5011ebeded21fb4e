/** The driver, its client and the NIC as one step system over shared memory.

    Every step is one indivisible action of one party: a client call on its packets, one
    stretch of driver code between two accesses to memory the NIC also touches, or one NIC
    action. The NIC fetches and fills only slots from its head up to the tail register, works
    in ring order, puts one frame in one buffer, and writes a descriptor back only after it
    is through with the buffer. */
module System {
  import opened Results
  import opened RingIndex
  import opened Buffers
  import T = Transmit
  import R = Receive

  /** A buffer: entry `id` of pool `pool`. */
  datatype Buf = Buf(pool: nat, id: nat)

  /** A packet in the client's hands; `data` is what its owner last saw or wrote there. */
  datatype Packet = Packet(pool: nat, entry: nat, addr: nat, data: Frame)

  /** `sent` holds the packets accepted by `send`, `wire` the frames the NIC has taken, and
      `written` counts the descriptors written back. */
  datatype TxQueue = TxQueue(ring: T.TxRing, pool: Option<nat>, sent: seq<Frame>, wire: seq<Frame>, written: nat)

  /** `dma` holds the frames the NIC has placed in buffers, `delivered` those handed to the
      closure; `posted` is the number delivered when RDT was last written. */
  datatype RxQueue = RxQueue(ring: R.RxRing, pool: nat, dma: seq<Frame>, written: nat, delivered: seq<Frame>, posted: nat)

  /** What the driver is in the middle of, with the loop variables of that call. */
  datatype Op =
    | Idle
    | Sending(q: nat)
    | Recycling(q: nat, clean: nat)
    | Receiving(q: nat, budget: nat, rx: nat, last: nat)
    | InCallback(q: nat, budget: nat, rx: nat, last: nat)

  datatype Sys = Sys(pools: seq<Pool>, mem: Memory, rxs: seq<RxQueue>, txs: seq<TxQueue>,
                     pkts: map<nat, Packet>, detached: set<Buf>, op: Op)

  datatype Step =
    // the client
    | Alloc(pool: nat, size: nat, h: nat)
    | Drop(h: nat)
    | Detach(h: nat)
    | Construct(pool: nat, id: nat, len: nat, h: nat)
    | Write(h: nat, data: Frame)
    // the driver
    | Send(q: nat, h: nat)
    | Doorbell
    | StartRecycle(q: nat)
    | RecycleIter
    | StartReceive(q: nat, budget: nat)
    | ReceiveIter(h: nat)
    | CallbackReturn
    // the NIC
    | TxFetch(q: nat)
    | TxWriteBack(q: nat, junkAddr: nat, junkLen: nat)
    | RxFill(q: nat, frame: Frame)
    | RxWriteBack(q: nat, junk: nat)

  /** `Refused` marks a step its party cannot take in this state. */
  datatype Outcome = Next(s: Sys) | Panicked | Refused

  /** What types and container shapes alone guarantee. */
  ghost predicate Formed(s: Sys) {
    (forall q :: 0 <= q < |s.txs| ==> T.Shape(s.txs[q].ring))
    && (forall q :: 0 <= q < |s.rxs| ==> R.Shape(s.rxs[q].ring) && s.rxs[q].pool < |s.pools|)
    && match s.op
       case Idle => true
       case Sending(q) => q < |s.txs|
       case Recycling(q, clean) => q < |s.txs| && clean < s.txs[q].ring.n
       case Receiving(q, _, rx, last) => q < |s.rxs| && rx < s.rxs[q].ring.n && last < s.rxs[q].ring.n
       case InCallback(q, _, rx, last) => q < |s.rxs| && rx < s.rxs[q].ring.n && last < s.rxs[q].ring.n
  }

  /** The `u16` cast of the length cuts a frame down to its length modulo 2^16. */
  function TxCut(f: Frame): Frame {
    f[..|f| % 0x1_0000]
  }

  /** The fifteen-bit length getter cuts a frame down to its length modulo 2^15. */
  function RxCut(f: Frame): Frame {
    f[..|f| % 0x8000]
  }

  function DropPacket(s: Sys, h: nat): Outcome
    requires h in s.pkts
  {
    var p := s.pkts[h];
    if p.pool >= |s.pools| then Refused
    else match PushFree(s.pools[p.pool], p.entry)
      case Ok(pool) => Next(s.(pools := s.pools[p.pool := pool], pkts := s.pkts - {h}))
      case Err(_) => Refused
      case Panic => Panicked
  }

  function AllocStep(s: Sys, p: nat, size: nat, h: nat): Outcome {
    if p >= |s.pools| || h in s.pkts then Refused
    else if !AllocFits(s.pools[p].entrySize, size) || s.pools[p].free == [] then Next(s)
    else
      var (pool, id) := PopFree(s.pools[p]);
      if id >= |pool.phys| then Panicked
      else
        var addr := pool.phys[id] + HEADROOM;
        Next(s.(pools := s.pools[p := pool], pkts := s.pkts[h := Packet(p, id, addr, ReadMem(s.mem, addr, size))]))
  }

  function ConstructStep(s: Sys, p: nat, id: nat, len: nat, h: nat): Outcome {
    if p >= |s.pools| || h in s.pkts then Refused
    else if id >= |s.pools[p].phys| then Panicked
    else
      var addr := s.pools[p].phys[id] + HEADROOM;
      Next(s.(detached := s.detached - {Buf(p, id)},
              pkts := s.pkts[h := Packet(p, id, addr, ReadMem(s.mem, addr, len))]))
  }

  /** `send`: a refused packet is dropped with the call's argument; an accepted one replaces
      the queue's pool by its own. */
  function SendStep(s: Sys, q: nat, h: nat): Outcome
    requires Formed(s)
  {
    if s.op != Idle || h !in s.pkts then Refused
    else if q >= |s.txs| || !T.CanSend(s.txs[q].ring) then DropPacket(s, h)
    else
      var Q, p := s.txs[q], s.pkts[h];
      var Q' := Q.(ring := T.Post(Q.ring, p.addr, |p.data|, p.entry), pool := Some(p.pool), sent := Q.sent + [p.data]);
      Next(s.(txs := s.txs[q := Q'], pkts := s.pkts - {h}, op := Sending(q)))
  }

  function RecycleIterStep(s: Sys): Outcome
    requires Formed(s) && s.op.Recycling?
  {
    var q, clean := s.op.q, s.op.clean;
    var Q := s.txs[q];
    if T.BatchReady(Q.ring, clean) then
      var ids := T.Drained(Q.ring, Q.pool.Some?);
      var s' := s.(txs := s.txs[q := Q.(ring := T.AfterBatch(Q.ring, Q.pool.Some?))],
                   op := Recycling(q, WrapRing(T.BatchEnd(Q.ring, clean), Q.ring.n)));
      if Q.pool.None? then Next(s')
      else if Q.pool.value >= |s.pools| then Refused
      else
        var pool := s.pools[Q.pool.value];
        Next(s'.(pools := s.pools[Q.pool.value := pool.(free := pool.free + ids)]))
    else Next(s.(txs := s.txs[q := Q.(ring := Q.ring.(clean := clean))], op := Idle))
  }

  function FinishReceive(s: Sys): Outcome
    requires Formed(s) && s.op.Receiving?
  {
    var q := s.op.q;
    var Q := s.rxs[q];
    var posted := if s.op.rx != s.op.last then |Q.delivered| else Q.posted;
    Next(s.(rxs := s.rxs[q := Q.(ring := R.Finish(Q.ring, s.op.rx, s.op.last), posted := posted)], op := Idle))
  }

  /** One pass of the loop of `receive_packets` up to the call of the closure. */
  function ReceiveIterStep(s: Sys, h: nat): Outcome
    requires Formed(s) && s.op.Receiving?
  {
    var q, rx := s.op.q, s.op.rx;
    var Q := s.rxs[q];
    var desc, p := Q.ring.descs[rx], Q.pool;
    if s.op.budget == 0 || !desc.done then FinishReceive(s)
    else if !desc.eop then Panicked
    else if s.pools[p].free == [] then FinishReceive(s)
    else if h in s.pkts then Refused
    else
      var (pool, buf) := PopFree(s.pools[p]);
      var idx := Q.ring.inUse[rx];
      if idx >= |pool.phys| then Panicked
      else
        var data := ReadMem(s.mem, pool.phys[idx], R.SeenLength(desc));
        var Q' := Q.(ring := R.Take(Q.ring, rx, buf), delivered := Q.delivered + [data]);
        Next(s.(pools := s.pools[p := pool], rxs := s.rxs[q := Q'],
                pkts := s.pkts[h := Packet(p, idx, pool.phys[idx], data)],
                op := InCallback(q, s.op.budget - 1, rx, s.op.last)))
  }

  /** The rest of the pass: the slot is armed with the fresh buffer and the index moves on. */
  function CallbackReturnStep(s: Sys): Outcome
    requires Formed(s) && s.op.InCallback?
  {
    var q, rx := s.op.q, s.op.rx;
    var Q := s.rxs[q];
    var phys := s.pools[Q.pool].phys;
    if Q.ring.inUse[rx] >= |phys| then Panicked
    else
      Next(s.(rxs := s.rxs[q := Q.(ring := R.Rearm(Q.ring, rx, phys[Q.ring.inUse[rx]]))],
              op := Receiving(q, s.op.budget, WrapRing(rx, Q.ring.n), rx)))
  }

  function TxFetchStep(s: Sys, q: nat): Outcome
    requires Formed(s)
  {
    if q >= |s.txs| || s.txs[q].ring.head == s.txs[q].ring.tail then Refused
    else
      var Q := s.txs[q];
      var d := Q.ring.descs[Q.ring.head];
      Next(s.(txs := s.txs[q := Q.(ring := T.NicStep(Q.ring, T.Fetch), wire := Q.wire + [ReadMem(s.mem, d.addr, d.len)])]))
  }

  function TxWriteBackStep(s: Sys, q: nat, junkAddr: nat, junkLen: nat): Outcome
    requires Formed(s)
  {
    if q >= |s.txs| || s.txs[q].ring.wb == s.txs[q].ring.head then Refused
    else
      var Q := s.txs[q];
      Next(s.(txs := s.txs[q := Q.(ring := T.NicStep(Q.ring, T.WriteBack(junkAddr, junkLen)), written := Q.written + 1)]))
  }

  /** The NIC writes no more than an entry and reports the length in sixteen bits. */
  function RxFillStep(s: Sys, q: nat, frame: Frame): Outcome
    requires Formed(s)
  {
    if q >= |s.rxs| || s.rxs[q].ring.head == s.rxs[q].ring.tail
       || |frame| > s.pools[s.rxs[q].pool].entrySize || |frame| >= 0x1_0000 then Refused
    else
      var Q := s.rxs[q];
      Next(s.(mem := WriteMem(s.mem, Q.ring.descs[Q.ring.head].addr, frame),
              rxs := s.rxs[q := Q.(ring := R.Fill(Q.ring), dma := Q.dma + [frame])]))
  }

  function RxWriteBackStep(s: Sys, q: nat, junk: nat): Outcome
    requires Formed(s)
  {
    if q >= |s.rxs| || s.rxs[q].ring.wb == s.rxs[q].ring.head || s.rxs[q].written >= |s.rxs[q].dma| then Refused
    else
      var Q := s.rxs[q];
      Next(s.(rxs := s.rxs[q := Q.(ring := R.WriteBack(Q.ring, |Q.dma[Q.written]|, junk), written := Q.written + 1)]))
  }

  function NextState(s: Sys, step: Step): Outcome
    requires Formed(s)
  {
    match step
    case Alloc(p, size, h) => AllocStep(s, p, size, h)
    case Drop(h) => if h in s.pkts then DropPacket(s, h) else Refused
    case Detach(h) =>
      if h !in s.pkts then Refused
      else Next(s.(pkts := s.pkts - {h}, detached := s.detached + {Buf(s.pkts[h].pool, s.pkts[h].entry)}))
    case Construct(p, id, len, h) => ConstructStep(s, p, id, len, h)
    case Write(h, data) =>
      if h !in s.pkts || |data| != |s.pkts[h].data| then Refused
      else Next(s.(mem := WriteMem(s.mem, s.pkts[h].addr, data), pkts := s.pkts[h := s.pkts[h].(data := data)]))
    case Send(q, h) => SendStep(s, q, h)
    case Doorbell =>
      if !s.op.Sending? then Refused
      else Next(s.(txs := s.txs[s.op.q := s.txs[s.op.q].(ring := T.Ring(s.txs[s.op.q].ring))], op := Idle))
    case StartRecycle(q) =>
      if s.op != Idle then Refused
      else if q >= |s.txs| then Next(s)
      else Next(s.(op := Recycling(q, s.txs[q].ring.clean)))
    case RecycleIter => if s.op.Recycling? then RecycleIterStep(s) else Refused
    case StartReceive(q, budget) =>
      if s.op != Idle then Refused
      else if q >= |s.rxs| || !R.CanRecv(s.rxs[q].ring) then Next(s)
      else Next(s.(op := Receiving(q, budget, s.rxs[q].ring.rx, s.rxs[q].ring.rx)))
    case ReceiveIter(h) => if s.op.Receiving? then ReceiveIterStep(s, h) else Refused
    case CallbackReturn => if s.op.InCallback? then CallbackReturnStep(s) else Refused
    case TxFetch(q) => TxFetchStep(s, q)
    case TxWriteBack(q, a, l) => TxWriteBackStep(s, q, a, l)
    case RxFill(q, frame) => RxFillStep(s, q, frame)
    case RxWriteBack(q, junk) => RxWriteBackStep(s, q, junk)
  }

  /** `send` mixes pools when the packet comes from another pool than the ids in flight. */
  predicate PoolMatches(s: Sys, q: nat, h: nat)
    requires q < |s.txs| && h in s.pkts
  {
    s.txs[q].ring.inUse == [] || s.txs[q].pool == Some(s.pkts[h].pool)
  }

  /** What the client must see to: one pool per transmit queue while packets are in flight,
      and packets constructed only from detached entries and within them. */
  ghost predicate Allowed(s: Sys, step: Step)
    requires Formed(s)
  {
    match step
    case Send(q, h) => q < |s.txs| && h in s.pkts && T.CanSend(s.txs[q].ring) ==> PoolMatches(s, q, h)
    case Construct(p, id, len, _) =>
      Buf(p, id) in s.detached && (p < |s.pools| ==> HEADROOM + len <= s.pools[p].entrySize)
    case _ => true
  }

  /** A finite run of allowed steps, none refused and none panicking. */
  ghost predicate Run(s: Sys, steps: seq<Step>, s': Sys)
    decreases |steps|
  {
    if steps == [] then s' == s
    else Formed(s) && Allowed(s, steps[0]) && NextState(s, steps[0]).Next?
         && Run(NextState(s, steps[0]).s, steps[1..], s')
  }
}
