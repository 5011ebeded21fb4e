/** The registers the driver writes: the per-queue ring registers and the packed interrupt
    vector table. */
module Registers {
  // ---- ring registers ----

  datatype RingReg = Bal | Bah | Len | Head | Tail | Ctl

  function Offset(r: RingReg): nat {
    match r
    case Bal => 0x00
    case Bah => 0x04
    case Len => 0x08
    case Head => 0x10
    case Tail => 0x18
    case Ctl => 0x28
  }

  /** `IGB_RDBAL` to `IGB_RXDCTL`. */
  function RxReg(r: RingReg, queue: nat): nat {
    0xC000 + Offset(r) + queue * 0x40
  }

  /** `IGB_TDBAL` to `IGB_TXDCTL`. */
  function TxReg(r: RingReg, queue: nat): nat {
    0xE000 + Offset(r) + queue * 0x40
  }

  /** A register of one ring is a register of another only for the receive queue 128 above a
      transmit queue; with fewer than 129 receive queues no two rings share a register. */
  lemma RingRegistersExact(r: RingReg, r': RingReg, i: nat, j: nat)
    ensures RxReg(r, i) == RxReg(r', j) <==> r == r' && i == j
    ensures TxReg(r, i) == TxReg(r', j) <==> r == r' && i == j
    ensures RxReg(r, i) == TxReg(r', j) <==> r == r' && i == j + 128
  {
    assert Offset(r) < 0x40 && Offset(r') < 0x40;
  }

  /** The registers of queue 0, and the distance from queue to queue. */
  lemma RingRegisterMap(r: RingReg, queue: nat)
    ensures RxReg(Bal, 0) == 0xC000 && RxReg(Bah, 0) == 0xC004 && RxReg(Len, 0) == 0xC008
            && RxReg(Head, 0) == 0xC010 && RxReg(Tail, 0) == 0xC018 && RxReg(Ctl, 0) == 0xC028
    ensures TxReg(Bal, 0) == 0xE000 && TxReg(Bah, 0) == 0xE004 && TxReg(Len, 0) == 0xE008
            && TxReg(Head, 0) == 0xE010 && TxReg(Tail, 0) == 0xE018 && TxReg(Ctl, 0) == 0xE028
    ensures RxReg(r, queue + 1) == RxReg(r, queue) + 0x40 && TxReg(r, queue + 1) == TxReg(r, queue) + 0x40
  {
  }

  // ---- interrupt vectors ----

  const IVAR_ALLOC_VAL: bv32 := 0x80

  /** Register values by offset. */
  type RegFile = int -> bv32

  function IvarReg(index: nat): nat {
    0x900 + index * 4
  }

  /** Byte of its register an entry takes: the source's bit index `16 * (queue & 1) + 8 *
      direction` divided by eight. */
  function IvarByte(direction: nat, queue: nat): (b: nat)
    requires direction <= 1
    ensures b < 4
  {
    2 * (queue % 2) + direction
  }

  function ShiftIn(x: bv32, b: nat): bv32
    requires b < 4
  {
    if b == 0 then x else if b == 1 then x << 8 else if b == 2 then x << 16 else x << 24
  }

  function IvarWord(w: bv32, b: nat, vector: bv32): bv32
    requires b < 4
  {
    (w & !ShiftIn(0xFF, b)) | ShiftIn(vector | IVAR_ALLOC_VAL, b)
  }

  /** The byte of a register word that starts at bit `at`. */
  function ByteAt(w: bv32, at: nat): bv32
    requires at in {0, 8, 16, 24}
  {
    if at == 0 then w & 0xFF
    else if at == 8 then (w >> 8) & 0xFF
    else if at == 16 then (w >> 16) & 0xFF
    else (w >> 24) & 0xFF
  }

  /** The table entry of `queue` in `direction` (0 receive, 1 transmit): two queues share a register of
      the block at 0x900, sixteen bits each, eight bits a direction. */
  function IvarEntry(regs: RegFile, direction: nat, queue: nat): bv32
    requires direction <= 1
  {
    ByteAt(regs(0x900 + 4 * (queue / 2)), 16 * (queue % 2) + 8 * direction)
  }

  function AfterSetIvar(regs: RegFile, direction: nat, queue: nat, vector: bv32): RegFile
    requires direction <= 1
  {
    var reg := IvarReg(queue / 2);
    var w := IvarWord(regs(reg), IvarByte(direction, queue), vector);
    r => if r == reg then w else regs(r)
  }

  lemma ByteWritten(w: bv32, b: nat, vector: bv32)
    requires b < 4 && vector < 0x100
    ensures ByteAt(IvarWord(w, b, vector), 8 * b) == vector | 0x80
  {
  }

  lemma OtherByteKept(w: bv32, b: nat, b': nat, vector: bv32)
    requires b < 4 && b' < 4 && b != b' && vector < 0x100
    ensures ByteAt(IvarWord(w, b, vector), 8 * b') == ByteAt(w, 8 * b')
  {
    if b == 0 { OthersKept0(w, b', vector); } else if b == 1 { OthersKept1(w, b', vector); }
    else if b == 2 { OthersKept2(w, b', vector); } else { OthersKept3(w, b', vector); }
  }

  lemma OthersKept0(w: bv32, b': nat, vector: bv32)
    requires b' < 4 && b' != 0 && vector < 0x100
    ensures ByteAt(IvarWord(w, 0, vector), 8 * b') == ByteAt(w, 8 * b')
  {
  }

  lemma OthersKept1(w: bv32, b': nat, vector: bv32)
    requires b' < 4 && b' != 1 && vector < 0x100
    ensures ByteAt(IvarWord(w, 1, vector), 8 * b') == ByteAt(w, 8 * b')
  {
  }

  lemma OthersKept2(w: bv32, b': nat, vector: bv32)
    requires b' < 4 && b' != 2 && vector < 0x100
    ensures ByteAt(IvarWord(w, 2, vector), 8 * b') == ByteAt(w, 8 * b')
  {
  }

  lemma OthersKept3(w: bv32, b': nat, vector: bv32)
    requires b' < 4 && b' != 3 && vector < 0x100
    ensures ByteAt(IvarWord(w, 3, vector), 8 * b') == ByteAt(w, 8 * b')
  {
  }

  lemma BytesOfWord(w: bv32, b: nat, vector: bv32, b': nat)
    requires b < 4 && vector < 0x100 && b' < 4
    ensures ByteAt(IvarWord(w, b, vector), 8 * b') == if b' == b then vector | 0x80 else ByteAt(w, 8 * b')
  {
    if b' == b {
      ByteWritten(w, b, vector);
    } else {
      OtherByteKept(w, b, b', vector);
    }
  }

  lemma ByteNumber(at: nat, b: nat) returns (b': nat)
    requires at in {0, 8, 16, 24}
    ensures b' < 4 && at == 8 * b' && (b' == b <==> at == 8 * b)
  {
    b' := at / 8;
  }

  /** Bit by bit: of all bytes of all registers one call changes a single one, that of its queue and
      direction. */
  lemma SetIvarBytes(regs: RegFile, direction: nat, queue: nat, vector: bv32, reg: nat, at: nat)
    requires direction <= 1 && vector < 0x100 && at in {0, 8, 16, 24}
    ensures ByteAt(AfterSetIvar(regs, direction, queue, vector)(reg), at) ==
      if reg == 0x900 + 4 * (queue / 2) && at == 16 * (queue % 2) + 8 * direction then vector | 0x80
      else ByteAt(regs(reg), at)
  {
    var b' := ByteNumber(at, IvarByte(direction, queue));
    BytesOfWord(regs(IvarReg(queue / 2)), IvarByte(direction, queue), vector, b');
  }

  /** One call changes exactly the entry of its own queue and direction. */
  lemma SetIvarEntry(regs: RegFile, direction: nat, queue: nat, vector: bv32, direction': nat, queue': nat)
    requires direction <= 1 && direction' <= 1 && vector < 0x100
    ensures IvarEntry(AfterSetIvar(regs, direction, queue, vector), direction', queue') ==
      if direction == direction' && queue == queue' then vector | 0x80
      else IvarEntry(regs, direction', queue')
  {
    SetIvarBytes(regs, direction, queue, vector, 0x900 + 4 * (queue' / 2), 16 * (queue' % 2) + 8 * direction');
    OnePlaceEach(direction, queue, direction', queue');
  }

  /** Two entries take the same byte of the same register only if they are the same. */
  lemma OnePlaceEach(direction: nat, queue: nat, direction': nat, queue': nat)
    requires direction <= 1 && direction' <= 1
    ensures queue / 2 == queue' / 2 && 16 * (queue % 2) + 8 * direction == 16 * (queue' % 2) + 8 * direction'
            <==> direction == direction' && queue == queue'
  {
  }

  /** All bytes of all registers but the one of `queue` and `direction` are as before. */
  ghost predicate OnlyByteSet(before: RegFile, after: RegFile, direction: nat, queue: nat, vector: bv32) {
    forall reg: nat, at: nat | at in {0, 8, 16, 24} ::
      ByteAt(after(reg), at) ==
        if reg == 0x900 + 4 * (queue / 2) && at == 16 * (queue % 2) + 8 * direction then vector | 0x80
        else ByteAt(before(reg), at)
  }

  lemma BytesAfter(before: RegFile, after: RegFile, direction: nat, queue: nat, vector: bv32)
    requires direction <= 1 && vector < 0x100
    requires forall r :: after(r) == AfterSetIvar(before, direction, queue, vector)(r)
    ensures OnlyByteSet(before, after, direction, queue, vector)
  {
    forall reg: nat, at: nat | at in {0, 8, 16, 24}
      ensures ByteAt(after(reg), at) ==
        if reg == 0x900 + 4 * (queue / 2) && at == 16 * (queue % 2) + 8 * direction then vector | 0x80
        else ByteAt(before(reg), at)
    {
      SetIvarBytes(before, direction, queue, vector, reg, at);
    }
  }

  /** The table after is the table before with one entry set. */
  ghost predicate OnlyEntrySet(before: RegFile, after: RegFile, direction: nat, queue: nat, vector: bv32) {
    forall d: nat, q: nat | d <= 1 ::
      IvarEntry(after, d, q) ==
        if d == direction && q == queue then vector | 0x80 else IvarEntry(before, d, q)
  }

  lemma EntriesAfter(before: RegFile, after: RegFile, direction: nat, queue: nat, vector: bv32)
    requires direction <= 1
    requires forall r :: after(r) == AfterSetIvar(before, direction, queue, vector)(r)
    ensures vector < 0x100 ==> OnlyEntrySet(before, after, direction, queue, vector)
  {
    if vector < 0x100 {
      forall d: nat, q: nat | d <= 1
        ensures IvarEntry(after, d, q) ==
          if d == direction && q == queue then vector | 0x80 else IvarEntry(before, d, q)
      {
        SetIvarEntry(before, direction, queue, vector, d, q);
      }
    }
  }

  datatype SetCall = SetCall(direction: nat, queue: nat, vector: bv32)

  predicate GoodCalls(calls: seq<SetCall>) {
    forall i :: 0 <= i < |calls| ==> calls[i].direction <= 1 && calls[i].vector < 0x100
  }

  function AfterCalls(regs: RegFile, calls: seq<SetCall>): RegFile
    requires GoodCalls(calls)
    decreases |calls|
  {
    if calls == [] then regs
    else
      var c := calls[|calls| - 1];
      AfterSetIvar(AfterCalls(regs, calls[..|calls| - 1]), c.direction, c.queue, c.vector)
  }

  /** The table the calls describe: each entry as the last call for it left it. */
  function Table(regs: RegFile, calls: seq<SetCall>, direction: nat, queue: nat): bv32
    requires direction <= 1
    decreases |calls|
  {
    if calls == [] then IvarEntry(regs, direction, queue)
    else
      var c := calls[|calls| - 1];
      if c.direction == direction && c.queue == queue then c.vector | 0x80
      else Table(regs, calls[..|calls| - 1], direction, queue)
  }

  /** After any sequence of calls the packed registers hold exactly that table. */
  lemma {:induction false} IvarRefinesTable(regs: RegFile, calls: seq<SetCall>, direction: nat, queue: nat)
    requires GoodCalls(calls) && direction <= 1
    ensures IvarEntry(AfterCalls(regs, calls), direction, queue) == Table(regs, calls, direction, queue)
    decreases |calls|
  {
    if calls != [] {
      var c, before := calls[|calls| - 1], calls[..|calls| - 1];
      IvarRefinesTable(regs, before, direction, queue);
      SetIvarEntry(AfterCalls(regs, before), c.direction, c.queue, c.vector, direction, queue);
    }
  }

  /** The byte at bit `at` of register `reg` as the calls leave it. */
  function ByteAfter(regs: RegFile, calls: seq<SetCall>, reg: nat, at: nat): bv32
    requires at in {0, 8, 16, 24}
    decreases |calls|
  {
    if calls == [] then ByteAt(regs(reg), at)
    else
      var c := calls[|calls| - 1];
      if reg == 0x900 + 4 * (c.queue / 2) && at == 16 * (c.queue % 2) + 8 * c.direction then c.vector | 0x80
      else ByteAfter(regs, calls[..|calls| - 1], reg, at)
  }

  /** After any sequence of calls every byte of every register is the one the last call for it wrote,
      or what it was. */
  lemma {:induction false} IvarBytes(regs: RegFile, calls: seq<SetCall>, reg: nat, at: nat)
    requires GoodCalls(calls) && at in {0, 8, 16, 24}
    ensures ByteAt(AfterCalls(regs, calls)(reg), at) == ByteAfter(regs, calls, reg, at)
    decreases |calls|
  {
    if calls != [] {
      var c, before := calls[|calls| - 1], calls[..|calls| - 1];
      IvarBytes(regs, before, reg, at);
      SetIvarBytes(AfterCalls(regs, before), c.direction, c.queue, c.vector, reg, at);
    }
  }

  /** The bytes around byte `b` of a word. */
  function Around(w: bv32, b: nat): bv32
    requires b < 4
  {
    w & !ShiftIn(0xFF, b)
  }

  /** What a call does to the bytes around its own: it ORs in the part of the vector that does
      not fit. */
  ghost predicate Spills(w: bv32, b: nat, vector: bv32)
    requires b < 4
  {
    Around(IvarWord(w, b, vector), b) == Around(w, b) | Around(ShiftIn(vector, b), b)
  }

  lemma Spill(w: bv32, b: nat, vector: bv32)
    requires b < 4
    ensures Spills(w, b, vector)
  {
    if b == 0 { Spill0(w, vector); } else if b == 1 { Spill1(w, vector); }
    else if b == 2 { Spill2(w, vector); } else { Spill3(w, vector); }
  }

  lemma Spill0(w: bv32, v: bv32)
    ensures Spills(w, 0, v)
  {
  }

  lemma Spill1(w: bv32, v: bv32)
    ensures Spills(w, 1, v)
  {
  }

  lemma Spill2(w: bv32, v: bv32)
    ensures Spills(w, 2, v)
  {
  }

  lemma Spill3(w: bv32, v: bv32)
    ensures Spills(w, 3, v)
  {
  }

  /** A call leaves the other three bytes of its register alone, whatever they held, exactly
      when no bit of the vector lands above its own byte. */
  lemma SpillExact(b: nat, vector: bv32)
    requires b < 4
    ensures (forall w: bv32 :: Around(IvarWord(w, b, vector), b) == Around(w, b))
            <==> Around(ShiftIn(vector, b), b) == 0
  {
    var extra := Around(ShiftIn(vector, b), b);
    if extra == 0 {
      forall w: bv32 ensures Around(IvarWord(w, b, vector), b) == Around(w, b) {
        Spill(w, b, vector);
        OrZero(Around(w, b), extra);
      }
    } else {
      Spill(0, b, vector);
      AroundZero(b, extra);
      assert Around(IvarWord(0, b, vector), b) != Around(0, b);
    }
  }

  lemma OrZero(x: bv32, y: bv32)
    requires y == 0
    ensures x | y == x
  {
  }

  lemma AroundZero(b: nat, y: bv32)
    requires b < 4
    ensures Around(0, b) == 0 && Around(0, b) | y == y
  {
  }

  /** The register file with the driver's access methods. */
  class Mmio {
    var regs: RegFile

    constructor (initial: RegFile)
      ensures regs == initial
    {
      regs := initial;
    }

    method GetReg32(reg: nat) returns (value: bv32)
      ensures value == regs(reg)
    {
      value := regs(reg);
    }

    method SetReg32(reg: nat, value: bv32)
      modifies this
      ensures forall r :: regs(r) == if r == reg then value else old(regs)(r)
    {
      var before := regs;
      regs := r => if r == reg then value else before(r);
    }

    method SetFlags32(reg: nat, flags: bv32)
      modifies this
      ensures forall r :: regs(r) == if r == reg then old(regs)(reg) | flags else old(regs)(r)
    {
      var value := GetReg32(reg);
      SetReg32(reg, value | flags);
    }

    method ClearFlags32(reg: nat, flags: bv32)
      modifies this
      ensures forall r :: regs(r) == if r == reg then old(regs)(reg) & !flags else old(regs)(r)
    {
      var value := GetReg32(reg);
      SetReg32(reg, value & !flags);
    }

    /** `set_ivar`: a vector that fits a byte goes into its entry and every other entry is kept. */
    method SetIvar(direction: nat, queue: nat, msixVector: bv32)
      requires direction <= 1
      modifies this
      ensures forall r :: regs(r) == AfterSetIvar(old(regs), direction, queue, msixVector)(r)
      ensures msixVector < 0x100 ==>
                OnlyEntrySet(old(regs), regs, direction, queue, msixVector)
                && OnlyByteSet(old(regs), regs, direction, queue, msixVector)
    {
      ghost var before := regs;
      var vector := msixVector | IVAR_ALLOC_VAL;
      var index := IvarByte(direction, queue);
      var ivar := GetReg32(IvarReg(queue / 2));
      ivar := ivar & !ShiftIn(0xFF, index);
      ivar := ivar | ShiftIn(vector, index);
      SetReg32(IvarReg(queue / 2), ivar);
      EntriesAfter(before, regs, direction, queue, msixVector);
      if msixVector < 0x100 {
        BytesAfter(before, regs, direction, queue, msixVector);
      }
    }
  }
}
