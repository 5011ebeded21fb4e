/** Physical memory and the state of a packet-buffer pool. */
module Buffers {
  import opened Results

  type Byte = b: int | 0 <= b < 256
  type Frame = seq<Byte>
  type Memory = int -> Byte

  /** Bytes kept free in front of an allocated packet (`PACKET_HEADROOM`). */
  const HEADROOM := 32
  const WORD_RANGE := 0x1_0000_0000_0000_0000

  function ReadMem(m: Memory, addr: int, len: nat): (f: Frame)
    ensures |f| == len && forall i :: 0 <= i < len ==> f[i] == m(addr + i)
  {
    seq(len, i requires 0 <= i < len => m(addr + i))
  }

  function WriteMem(m: Memory, addr: int, f: Frame): Memory {
    x => if addr <= x < addr + |f| then f[x - addr] else m(x)
  }

  predicate DisjointRanges(a: int, aLen: nat, b: int, bLen: nat) {
    a + aLen <= b || b + bLen <= a
  }

  lemma ReadBack(m: Memory, addr: int, f: Frame)
    ensures ReadMem(WriteMem(m, addr, f), addr, |f|) == f
  {
  }

  lemma ReadElsewhere(m: Memory, addr: int, f: Frame, a: int, len: nat)
    requires DisjointRanges(addr, |f|, a, len)
    ensures ReadMem(WriteMem(m, addr, f), a, len) == ReadMem(m, a, len)
  {
  }

  lemma ReadPrefix(m: Memory, a: int, len: nat, k: nat)
    requires k <= len
    ensures ReadMem(m, a, k) == ReadMem(m, a, len)[..k]
  {
  }

  /** `phys[id]` is the physical address of entry `id`; `free` is the free stack, top last. */
  datatype Pool = Pool(entrySize: nat, phys: seq<nat>, free: seq<nat>)

  /** `alloc_buf` on a non-empty stack. */
  function PopFree(p: Pool): (r: (Pool, nat))
    requires p.free != []
    ensures p.free == r.0.free + [r.1]
  {
    (p.(free := p.free[..|p.free| - 1]), p.free[|p.free| - 1])
  }

  /** `free_buf`, with its two panics. */
  function PushFree(p: Pool, id: nat): Result<Pool> {
    if id >= |p.phys| then Panic
    else if id in p.free then Panic
    else Ok(p.(free := p.free + [id]))
  }

  /** `free_buf` applied to each id in turn. */
  function PushAll(p: Pool, ids: seq<nat>): Result<Pool>
    decreases |ids|
  {
    if ids == [] then Ok(p)
    else match PushFree(p, ids[0])
      case Ok(p') => PushAll(p', ids[1..])
      case Err(e) => Err(e)
      case Panic => Panic
  }

  lemma Regroup(a: seq<nat>, b: seq<nat>, c: seq<nat>)
    ensures a + b + c == a + (b + c)
  {
  }

  ghost predicate Distinct(s: seq<nat>) {
    forall i, j :: 0 <= i < j < |s| ==> s[i] != s[j]
  }

  /** Appending a whole batch to the stack, as `recycle_tx_buffers` does behind the back of
      `free_buf`, equals that many successful `free_buf` calls exactly when the batch holds
      distinct entries of the pool none of which is free already. */
  lemma {:induction false} ExtendIsPushAll(p: Pool, ids: seq<nat>)
    ensures PushAll(p, ids) == Ok(p.(free := p.free + ids)) <==>
            Distinct(ids) && forall i :: 0 <= i < |ids| ==> ids[i] < |p.phys| && ids[i] !in p.free
    ensures PushAll(p, ids).Ok? ==> PushAll(p, ids) == Ok(p.(free := p.free + ids))
    decreases |ids|
  {
    if ids == [] {
      assert p.free + ids == p.free;
    } else if PushFree(p, ids[0]).Ok? {
      var p' := p.(free := p.free + [ids[0]]);
      var rest := ids[1..];
      ExtendIsPushAll(p', rest);
      assert p'.free + rest == p.free + ids;
      assert ids == [ids[0]] + rest;
      if Distinct(rest) && forall i :: 0 <= i < |rest| ==> rest[i] < |p.phys| && rest[i] !in p'.free {
        forall i, j | 0 <= i < j < |ids| ensures ids[i] != ids[j] {
          assert ids[j] == rest[j - 1];
        }
        forall i | 0 <= i < |ids| ensures ids[i] < |p.phys| && ids[i] !in p.free {
          if i > 0 { assert ids[i] == rest[i - 1]; }
        }
      }
      if Distinct(ids) && forall i :: 0 <= i < |ids| ==> ids[i] < |p.phys| && ids[i] !in p.free {
        forall i | 0 <= i < |rest| ensures rest[i] < |p.phys| && rest[i] !in p'.free {
          assert rest[i] == ids[i + 1] && ids[0] != ids[i + 1];
        }
      }
    } else {
      assert ids[0] >= |p.phys| || ids[0] in p.free;
    }
  }

  // ---- a client of the pool ----

  /** What a client does with a pool: it takes the top entry or gives one back. */
  datatype PoolUse = Grab | Return(id: nat)

  function UseOnce(p: Pool, use: PoolUse): Result<Pool> {
    match use
    case Grab =>
      if p.free == [] then Ok(p)
      else if PopFree(p).1 >= |p.phys| then Panic
      else Ok(PopFree(p).0)
    case Return(id) => PushFree(p, id)
  }

  function UsePool(p: Pool, uses: seq<PoolUse>): Result<Pool>
    decreases |uses|
  {
    if uses == [] then Ok(p)
    else match UseOnce(p, uses[0])
      case Ok(p') => UsePool(p', uses[1..])
      case _ => Panic
  }

  /** A use panics exactly when it takes an entry the pool does not have, or gives back one it does not
      have or that is free already. */
  lemma UsePanicsExact(p: Pool, use: PoolUse)
    ensures UseOnce(p, use).Panic? <==>
      match use
      case Grab => p.free != [] && p.free[|p.free| - 1] >= |p.phys|
      case Return(id) => id >= |p.phys| || id in p.free
    ensures !UseOnce(p, use).Err?
  {
  }

  /** A pool and the entries of it that are the client's. */
  datatype Holding = Holding(pool: Pool, mine: set<nat>)

  function HoldOnce(h: Holding, use: PoolUse): Holding {
    match use
    case Grab => if h.pool.free == [] then h else Holding(PopFree(h.pool).0, h.mine + {PopFree(h.pool).1})
    case Return(id) => Holding(h.pool.(free := h.pool.free + [id]), h.mine - {id})
  }

  function HoldAll(h: Holding, uses: seq<PoolUse>): Holding
    decreases |uses|
  {
    if uses == [] then h else HoldAll(HoldOnce(h, uses[0]), uses[1..])
  }

  /** The client gives back only what it has. */
  predicate OwnsAll(h: Holding, uses: seq<PoolUse>)
    decreases |uses|
  {
    uses == [] || ((uses[0].Return? ==> uses[0].id in h.mine) && OwnsAll(HoldOnce(h, uses[0]), uses[1..]))
  }

  lemma {:induction false} HoldKeepsEntries(h: Holding, uses: seq<PoolUse>)
    ensures HoldAll(h, uses).pool.phys == h.pool.phys && HoldAll(h, uses).pool.entrySize == h.pool.entrySize
    decreases |uses|
  {
    if uses != [] {
      HoldKeepsEntries(HoldOnce(h, uses[0]), uses[1..]);
    }
  }

  /** As long as the pool does not panic, it and the holding agree. */
  lemma {:induction false} UseIsHold(h: Holding, uses: seq<PoolUse>)
    ensures UsePool(h.pool, uses).Ok? ==> UsePool(h.pool, uses).value == HoldAll(h, uses).pool
    decreases |uses|
  {
    if uses != [] && UseOnce(h.pool, uses[0]).Ok? {
      UseIsHold(HoldOnce(h, uses[0]), uses[1..]);
    }
  }

  /** Free entries, the client's entries and those in `others` are entries of the pool, and no
      entry is in two of these places or twice in one. */
  ghost predicate Exclusive(h: Holding, others: seq<nat>) {
    var free, n := h.pool.free, |h.pool.phys|;
    Distinct(free) && Distinct(others)
    && (forall i :: 0 <= i < |free| ==> free[i] < n && free[i] !in h.mine)
    && (forall i :: 0 <= i < |others| ==> others[i] < n && others[i] !in free && others[i] !in h.mine)
    && (forall id :: id in h.mine ==> id < n)
  }

  lemma UseOnceKeeps(h: Holding, others: seq<nat>, use: PoolUse)
    requires Exclusive(h, others) && (use.Return? ==> use.id in h.mine)
    ensures UseOnce(h.pool, use) == Ok(HoldOnce(h, use).pool)
    ensures Exclusive(HoldOnce(h, use), others) && HoldOnce(h, use).pool.phys == h.pool.phys
  {
    var h' := HoldOnce(h, use);
    match use {
      case Grab =>
        if h.pool.free != [] {
          assert forall i :: 0 <= i < |h'.pool.free| ==> h'.pool.free[i] == h.pool.free[i];
          assert PopFree(h.pool).1 == h.pool.free[|h.pool.free| - 1];
        }
      case Return(id) =>
        assert id !in h.pool.free;
    }
  }

  /** A client that gives back only what it has never makes the pool panic. */
  lemma {:induction false} UsesKeep(h: Holding, others: seq<nat>, uses: seq<PoolUse>)
    requires Exclusive(h, others) && OwnsAll(h, uses)
    ensures UsePool(h.pool, uses) == Ok(HoldAll(h, uses).pool)
    ensures Exclusive(HoldAll(h, uses), others) && HoldAll(h, uses).pool.phys == h.pool.phys
    decreases |uses|
  {
    if uses != [] {
      UseOnceKeeps(h, others, uses[0]);
      UsesKeep(HoldOnce(h, uses[0]), others, uses[1..]);
    }
  }

  /** The size test of `alloc_pkt`: `size > entry_size - PACKET_HEADROOM` on unsigned words,
      where the subtraction wraps for entries below 32 bytes. */
  predicate AllocFits(entrySize: nat, size: nat) {
    size <= if entrySize >= HEADROOM then entrySize - HEADROOM else entrySize - HEADROOM + WORD_RANGE
  }

  /** For entries of at least 32 bytes the test lets through exactly the packets that fit behind the
      headroom. Below that the difference wraps and lets through nearly every size, so the test keeps
      packets inside their entries exactly for entries of at least 32 bytes. */
  lemma AllocFitsExact(entrySize: nat)
    ensures entrySize >= 32 ==> forall size: nat :: AllocFits(entrySize, size) <==> 32 + size <= entrySize
    ensures entrySize < 32 ==>
              forall size: nat :: AllocFits(entrySize, size) <==> size + (32 - entrySize) <= 0x1_0000_0000_0000_0000
    ensures (forall size: nat :: AllocFits(entrySize, size) ==> 32 + size <= entrySize) <==> entrySize >= 32
  {
    if entrySize < HEADROOM {
      assert AllocFits(entrySize, 0);
    }
  }
}
