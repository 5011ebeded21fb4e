/** `MemPool` and the packets made from it. */
module MemPools {
  import opened Results
  import opened Buffers
  import opened RingIndex

  const HUGE_PAGE_SIZE := 0x20_0000

  class MemPool {
    const baseAddr: nat
    const entrySize: nat
    const physAddr: seq<nat>
    var freeStack: seq<nat>

    function View(): Pool
      reads this
    {
      Pool(entrySize, physAddr, freeStack)
    }

    /** Every free id is an entry of this pool. */
    ghost predicate Valid()
      reads this
    {
      forall i :: 0 <= i < |freeStack| ==> freeStack[i] < |physAddr|
    }

    constructor (base: nat, entrySize: nat, phys: seq<nat>, free: seq<nat>)
      ensures this.baseAddr == base && View() == Pool(entrySize, phys, free)
    {
      this.baseAddr, this.entrySize, this.physAddr, this.freeStack := base, entrySize, phys, free;
    }

    /** A pool over memory at `base` whose addresses the NIC sees through `virtToPhys`: refused
        when entries do not tile huge pages, else with every entry free, in order. */
    static method Allocate(entries: nat, size: nat, base: nat, virtToPhys: nat -> nat) returns (r: Result<MemPool>)
      ensures var entrySize := if size == 0 then 2048 else size;
        if HUGE_PAGE_SIZE % entrySize != 0 then r == Err(PageNotAligned)
        else r.Ok? && fresh(r.value) && r.value.Valid() && r.value.baseAddr == base && r.value.entrySize == entrySize
             && |r.value.physAddr| == entries && |r.value.freeStack| == entries
             && (forall i :: 0 <= i < entries ==> r.value.physAddr[i] == virtToPhys(base + i * entrySize))
             && (forall i :: 0 <= i < entries ==> r.value.freeStack[i] == i)
    {
      var entrySize := if size == 0 then 2048 else size;
      if HUGE_PAGE_SIZE % entrySize != 0 {
        return Err(PageNotAligned);
      }
      var phys: seq<nat> := [];
      for i := 0 to entries
        invariant |phys| == i && forall k :: 0 <= k < i ==> phys[k] == virtToPhys(base + k * entrySize)
      {
        phys := phys + [virtToPhys(base + i * entrySize)];
      }
      var pool := new MemPool(base, entrySize, phys, seq(entries, i requires 0 <= i < entries => i));
      r := Ok(pool);
    }

    method AllocBuf() returns (r: Option<nat>)
      modifies this
      ensures old(freeStack) == [] ==> r == None && freeStack == old(freeStack)
      ensures old(freeStack) != [] ==> r.Some? && old(freeStack) == freeStack + [r.value]
      ensures old(Valid()) ==> Valid() && (r.Some? ==> r.value < |physAddr|)
    {
      if freeStack == [] {
        return None;
      }
      r := Some(freeStack[|freeStack| - 1]);
      freeStack := freeStack[..|freeStack| - 1];
    }

    /** Panics for ids outside the pool and for ids already free. */
    method FreeBuf(id: nat) returns (r: Result<()>)
      modifies this
      ensures match PushFree(old(View()), id)
              case Ok(pool) => r == Ok(()) && View() == pool
              case _ => r == Panic && freeStack == old(freeStack)
    {
      if id >= |physAddr| {
        return Panic;
      }
      var i := 0;
      while i < |freeStack|
        invariant 0 <= i <= |freeStack| && id !in freeStack[..i]
      {
        if freeStack[i] == id {
          return Panic;
        }
        i := i + 1;
      }
      assert freeStack[..i] == freeStack;
      freeStack := freeStack + [id];
      r := Ok(());
    }

    /** A client taking entries and giving some back, as `alloc_pkt` and dropped packets do. */
    method Use(uses: seq<PoolUse>) returns (r: Result<()>)
      modifies this
      ensures match UsePool(old(View()), uses)
              case Ok(pool) => r == Ok(()) && View() == pool
              case _ => r == Panic
    {
      var i := 0;
      while i < |uses|
        invariant 0 <= i <= |uses|
        invariant UsePool(old(View()), uses) == UsePool(View(), uses[i..])
      {
        assert uses[i..][0] == uses[i] && uses[i..][1..] == uses[i + 1..];
        match uses[i] {
          case Grab =>
            var taken := AllocBuf();
            if taken.Some? && taken.value >= |physAddr| {
              return Panic;
            }
          case Return(id) =>
            var freed := FreeBuf(id);
            if freed.Panic? {
              return Panic;
            }
        }
        i := i + 1;
      }
      r := Ok(());
    }

    method GetVirtAddr(id: nat) returns (r: Result<nat>)
      ensures r == if id < |physAddr| then Ok(VirtAddr(baseAddr, entrySize, id)) else Panic
    {
      r := if id < |physAddr| then Ok(baseAddr + id * entrySize) else Panic;
    }
  }

  /** A packet the client holds (`IgbNetBuf` around `Packet`). */
  datatype NetBuf = NetBuf(pool: MemPool, entry: nat, virt: nat, phys: nat, len: nat)

  /** Where a packet at `offset` of entry `id` starts, for the driver and for the NIC. */
  ghost predicate StartsAt(b: NetBuf, pool: MemPool, id: nat, offset: nat) {
    b.pool == pool && b.entry == id && id < |pool.physAddr|
    && b.virt == pool.baseAddr + id * pool.entrySize + offset && b.phys == pool.physAddr[id] + offset
  }

  /** `alloc_pkt`: the top free entry, behind the headroom, if the size fits. */
  method AllocPkt(pool: MemPool, size: nat) returns (r: Result<NetBuf>)
    requires pool.Valid()
    modifies pool
    ensures pool.Valid()
    ensures if AllocFits(pool.entrySize, size) && old(pool.freeStack) != [] then
              r.Ok? && old(pool.freeStack) == pool.freeStack + [r.value.entry]
              && StartsAt(r.value, pool, r.value.entry, HEADROOM) && r.value.len == size
            else r == Err(NoMemory) && pool.freeStack == old(pool.freeStack)
  {
    if !AllocFits(pool.entrySize, size) {
      return Err(NoMemory);
    }
    var id := pool.AllocBuf();
    if id == None {
      return Err(NoMemory);
    }
    r := Ok(NetBuf(pool, id.value, pool.baseAddr + id.value * pool.entrySize + HEADROOM,
                   pool.physAddr[id.value] + HEADROOM, size));
  }

  /** `construct`: a packet from any id, of any length; only the id's range is checked. */
  method Construct(pool: MemPool, id: nat, len: nat) returns (r: Result<NetBuf>)
    ensures if id < |pool.physAddr| then r.Ok? && StartsAt(r.value, pool, id, HEADROOM) && r.value.len == len
            else r == Panic
  {
    var virt := pool.GetVirtAddr(id);
    if virt.Panic? {
      return Panic;
    }
    r := Ok(NetBuf(pool, id, virt.value + HEADROOM, pool.physAddr[id] + HEADROOM, len));
  }

  /** `clone`: allocates again, which panics when the pool is empty and also when the packet
      fills more of its entry than an allocated packet may, as a full received one does. The
      bytes go over `copied`, one by one. */
  method Clone(b: NetBuf, mem: Memory) returns (r: Result<NetBuf>, copied: Memory)
    requires b.pool.Valid()
    modifies b.pool
    ensures b.pool.Valid()
    ensures r.Ok? <==> AllocFits(b.pool.entrySize, b.len) && old(b.pool.freeStack) != []
    ensures !r.Ok? ==> r == Panic && b.pool.freeStack == old(b.pool.freeStack) && copied == mem
    ensures r.Ok? ==> old(b.pool.freeStack) == b.pool.freeStack + [r.value.entry]
                      && StartsAt(r.value, b.pool, r.value.entry, HEADROOM) && r.value.len == b.len
                      && forall x :: copied(x) == WriteMem(mem, r.value.phys, ReadMem(mem, b.phys, b.len))(x)
  {
    var p := AllocPkt(b.pool, b.len);
    copied := mem;
    if !p.Ok? {
      return Panic, copied;
    }
    var source := ReadMem(mem, b.phys, b.len);
    var i := 0;
    while i < b.len
      invariant 0 <= i <= b.len
      invariant forall x :: copied(x) == WriteMem(mem, p.value.phys, source[..i])(x)
    {
      var before := copied;
      var at, byte := p.value.phys + i, source[i];
      copied := x => if x == at then byte else before(x);
      assert source[..i + 1] == source[..i] + [source[i]];
      i := i + 1;
    }
    assert source[..i] == source;
    r := p;
  }

  /** Dropping a packet frees its entry. */
  method DropBuf(b: NetBuf) returns (r: Result<()>)
    modifies b.pool
    ensures match PushFree(old(b.pool.View()), b.entry)
            case Ok(pool) => r == Ok(()) && b.pool.View() == pool
            case _ => r == Panic && b.pool.freeStack == old(b.pool.freeStack)
  {
    r := b.pool.FreeBuf(b.entry);
  }

  /** `allocate` accepts exactly the powers of two up to a huge page of 2 MiB as entry sizes. */
  lemma EntrySizesExact(size: nat)
    requires size >= 1
    ensures HUGE_PAGE_SIZE % size == 0 <==> exists k: nat :: k <= 21 && size == Pow2(k)
  {
    HugePageIsPower();
    if HUGE_PAGE_SIZE % size == 0 {
      DivisorIsPower(21, size, HUGE_PAGE_SIZE / size);
    }
    if k: nat :| k <= 21 && size == Pow2(k) {
      PowerSplits(k, 21 - k);
      ModUnique(HUGE_PAGE_SIZE, Pow2(21 - k), 0, size);
    }
  }

  lemma {:induction false} DivisorIsPower(m: nat, size: nat, q: nat)
    requires size * q == Pow2(m)
    ensures exists k: nat :: k <= m && size == Pow2(k)
  {
    if m == 0 {
      ProductOfOne(size, q);
      assert size == Pow2(0);
    } else if size % 2 == 0 {
      HalfOfEven(size, q, Pow2(m - 1));
      DivisorIsPower(m - 1, size / 2, q);
      var k: nat :| k <= m - 1 && size / 2 == Pow2(k);
      assert size == Pow2(k + 1);
    } else {
      HalfOfOdd(size, q, Pow2(m - 1));
      DivisorIsPower(m - 1, size, q / 2);
      var k: nat :| k <= m - 1 && size == Pow2(k);
    }
  }

  lemma ProductOfOne(size: nat, q: nat)
    requires size * q == 1
    ensures size == 1
  {
    MulBounds(q, size);
    MulBounds(size, q);
  }

  lemma HalfOfEven(size: nat, q: nat, p: nat)
    requires size % 2 == 0 && size * q == 2 * p
    ensures size / 2 * q == p
  {
    var h := size / 2;
    assert size * q == 2 * (h * q);
  }

  lemma HalfOfOdd(size: nat, q: nat, p: nat)
    requires size % 2 == 1 && size * q == 2 * p
    ensures size * (q / 2) == p
  {
    var h, e, o := size / 2, q / 2, q % 2;
    assert size * q == 2 * (h * q) + q;
    assert o == 0;
    assert size * q == 2 * (size * e);
  }

  lemma HugePageIsPower()
    ensures Pow2(21) == HUGE_PAGE_SIZE
  {
    assert Pow2(1) == 2 && Pow2(2) == 4 && Pow2(3) == 8;
    PowerSplits(3, 3);
    PowerSplits(6, 6);
    PowerSplits(6, 12);
    PowerSplits(3, 18);
  }

  lemma {:induction false} PowerSplits(a: nat, b: nat)
    ensures Pow2(a + b) == Pow2(b) * Pow2(a)
  {
    if a > 0 {
      PowerSplits(a - 1, b);
    }
  }

  function VirtAddr(base: nat, entrySize: nat, id: nat): nat {
    base + id * entrySize
  }

  /** The addresses handed out tell the entries of a pool apart: each entry lies in the pool's memory,
      no two overlap, and the id can be read off any address in the entry. */
  lemma VirtualEntriesApart(base: nat, entrySize: nat, entries: nat, i: nat, j: nat, offset: nat)
    requires i < entries && j < entries && offset < entrySize
    ensures base <= VirtAddr(base, entrySize, i) && VirtAddr(base, entrySize, i) + entrySize <= base + entries * entrySize
    ensures i != j ==> DisjointRanges(VirtAddr(base, entrySize, i), entrySize, VirtAddr(base, entrySize, j), entrySize)
    ensures (VirtAddr(base, entrySize, i) + offset - base) / entrySize == i
  {
    NextEntry(i, entries, entrySize);
    if i < j { NextEntry(i, j, entrySize); } else if j < i { NextEntry(j, i, entrySize); }
    ModUnique(i * entrySize + offset, i, offset, entrySize);
  }

  lemma NextEntry(i: nat, j: nat, entrySize: nat)
    requires i < j
    ensures i * entrySize + entrySize <= j * entrySize
  {
    MulMonotone(i + 1, j, entrySize);
    assert (i + 1) * entrySize == i * entrySize + entrySize;
  }

  /** With a linear address map the entries of a pool do not overlap. */
  lemma LinearMapKeepsApart(base: nat, entrySize: nat, entries: nat, virtToPhys: nat -> nat, i: nat, j: nat)
    requires forall v :: virtToPhys(v) == virtToPhys(0) + v
    requires i < j < entries
    ensures DisjointRanges(virtToPhys(base + i * entrySize), entrySize, virtToPhys(base + j * entrySize), entrySize)
  {
    NextEntry(i, j, entrySize);
  }
}
