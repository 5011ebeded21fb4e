/** Facts about machine words that connect bit operations to arithmetic. */
module Words {
  lemma Widen(l: bv16)
    ensures (l as bv64) as nat == l as nat
  {
  }

  lemma LowBits(l: bv16)
    ensures (l & 0x7FFF) as nat == (l as nat) % 0x8000
  {
    DropTopBit(l);
    TopBit(l);
    Halve(l as nat);
  }

  lemma DropTopBit(l: bv16)
    ensures (l & 0x7FFF) as nat == (l as nat) - (if l >= 0x8000 then 0x8000 else 0)
  {
  }

  lemma TopBit(l: bv16)
    ensures (l as nat) < 0x1_0000 && ((l as nat) >= 0x8000 <==> l >= 0x8000)
  {
  }

  lemma Halve(x: nat)
    requires x < 0x1_0000
    ensures x % 0x8000 == if x >= 0x8000 then x - 0x8000 else x
  {
  }

  lemma LowBitsWide(w: bv64, l: bv16)
    requires w == (l & 0x7FFF) as bv64
    ensures w as nat == (l as nat) % 0x8000
  {
    Widen(l & 0x7FFF);
    LowBits(l);
  }
}

/** The packed descriptor words and what the ring protocol sees of them. */
module Descriptors {
  import T = Transmit
  import R = Receive
  import Words

  const TX_CMD_EOP: bv8 := 0x01
  const TX_CMD_IFCS: bv8 := 0x02
  const TX_CMD_RS: bv8 := 0x08
  const TX_CMD_DEXT: bv8 := 0x20
  const TX_DTYP_ADV: bv8 := 0x30
  const TX_PAYLEN_SHIFT: bv32 := 14
  const RX_STATUS_DD: bv8 := 0x01
  const RX_STATUS_EOP: bv8 := 0x02

  // Layout words of the advanced transmit descriptor.
  const ADVTXD_DTYP_DATA: bv32 := 0x0030_0000
  const ADVTXD_DCMD_EOP: bv32 := 0x0100_0000
  const ADVTXD_DCMD_IFCS: bv32 := 0x0200_0000
  const ADVTXD_DCMD_RS: bv32 := 0x0800_0000
  const ADVTXD_DCMD_DEXT: bv32 := 0x2000_0000
  const ADVTXD_STAT_DD: bv32 := 0x0000_0001

  class AdvancedTxDescriptor {
    var packetBufferAddress: bv64
    var dataLen: bv16
    var dtypMacRsv: bv8
    var dcmd: bv8
    var paylenPoptsCcIdxSta: bv32

    /** What the ring protocol sees. */
    function View(): T.TxDesc
      reads this
    {
      T.TxDesc(packetBufferAddress as nat, dataLen as nat, Done())
    }

    predicate Done()
      reads this
    {
      paylenPoptsCcIdxSta & ADVTXD_STAT_DD != 0
    }

    /** The second word of the read layout: length, type and command in one 32-bit field. */
    function CmdTypeLen(): bv32
      reads this
    {
      CommandWord(dataLen, dtypMacRsv, dcmd)
    }

    constructor ()
      ensures View() == T.TxDesc(0, 0, false) && CmdTypeLen() == 0
    {
      packetBufferAddress, paylenPoptsCcIdxSta, dcmd, dtypMacRsv, dataLen := 0, 0, 0, 0, 0;
    }

    /** Clears all fields. */
    method Init()
      modifies this
      ensures View() == T.TxDesc(0, 0, false) && CmdTypeLen() == 0
    {
      packetBufferAddress := 0;
      paylenPoptsCcIdxSta := 0;
      dcmd := 0;
      dtypMacRsv := 0;
      dataLen := 0;
    }

    /** Whatever the descriptor held, including a Done bit from an earlier lap, it now reads as
        one advanced data descriptor for a whole packet, not done. */
    method Send(address: bv64, length: bv16)
      modifies this
      ensures packetBufferAddress == address && dataLen == length && View() == T.TxDesc(address as nat, length as nat, false)
      ensures CmdTypeLen() == (length as bv32) | ADVTXD_DTYP_DATA
                              | ADVTXD_DCMD_EOP | ADVTXD_DCMD_IFCS | ADVTXD_DCMD_RS | ADVTXD_DCMD_DEXT
      ensures Paylen(paylenPoptsCcIdxSta) == length as bv32 && LowFields(paylenPoptsCcIdxSta) == 0
    {
      packetBufferAddress := address;
      dataLen := length;
      dtypMacRsv := TX_DTYP_ADV;
      paylenPoptsCcIdxSta := PaylenWord(length);
      dcmd := TX_CMD_DEXT | TX_CMD_RS | TX_CMD_IFCS | TX_CMD_EOP;
      PaylenBits(length);
      CommandBits(length);
    }
  }

  function CommandWord(dataLen: bv16, dtyp: bv8, dcmd: bv8): bv32 {
    (dataLen as bv32) | ((dtyp as bv32) << 16) | ((dcmd as bv32) << 24)
  }

  function PaylenWord(length: bv16): bv32 {
    (length as bv32) << TX_PAYLEN_SHIFT
  }

  /** Bits 14 to 31 of the word: PAYLEN. */
  function Paylen(w: bv32): bv32 {
    (w >> 14) & 0x3_FFFF
  }

  /** Bits 0 to 13: status, context index and packet options. */
  function LowFields(w: bv32): bv32 {
    w & 0x3FFF
  }

  /** Bit 0: Done. */
  function DoneBit(w: bv32): bv32 {
    w & 1
  }

  /** In the layout the length lands in PAYLEN, and everything below it, Done included, is clear; as a
      number the word is 2^14 times the length. */
  lemma PaylenBits(length: bv16)
    ensures var w := PaylenWord(length);
      Paylen(w) == length as bv32 && LowFields(w) == 0 && DoneBit(w) == 0 && w == (length as bv32) * 0x4000
  {
  }

  /** The status test of `recycle_tx_buffers` reads bit 0. */
  lemma DoneIsBitZero(d: AdvancedTxDescriptor)
    ensures d.Done() <==> DoneBit(d.paylenPoptsCcIdxSta) == 1
  {
    TestBit(d.paylenPoptsCcIdxSta);
  }

  lemma TestBit(w: bv32)
    ensures w & ADVTXD_STAT_DD != 0 <==> DoneBit(w) == 1
  {
  }

  /** The byte fields the driver writes make up the 32-bit word of the layout. */
  lemma CommandBits(length: bv16)
    ensures CommandWord(length, TX_DTYP_ADV, TX_CMD_DEXT | TX_CMD_RS | TX_CMD_IFCS | TX_CMD_EOP)
         == (length as bv32) | ADVTXD_DTYP_DATA
            | ADVTXD_DCMD_EOP | ADVTXD_DCMD_IFCS | ADVTXD_DCMD_RS | ADVTXD_DCMD_DEXT
  {
  }

  /** `packet.len() as u16` keeps the length modulo 2^16. */
  lemma CastIsMod(length: bv64)
    ensures ((length & 0xFFFF) as bv16) as bv64 == length % 0x1_0000
  {
  }

  class AdvancedRxDescriptor {
    var packetBufferAddress: bv64
    var headerBufferAddress: bv64

    /** What the ring protocol sees; `len` is the 16-bit length field of the write-back form. */
    function View(): R.RxDesc
      reads this
    {
      R.RxDesc(packetBufferAddress as nat, WrittenLength(headerBufferAddress) as nat,
               ExtStatus() & RX_STATUS_DD != 0, ExtStatus() & RX_STATUS_EOP != 0)
    }

    /** `get_ext_status() as u8`. */
    function ExtStatus(): bv8
      reads this
    {
      StatusByte(headerBufferAddress)
    }

    /** `length()`: bits 32 to 46, as the upper bound of the bit range is exclusive. */
    function Length(): bv64
      reads this
    {
      (headerBufferAddress >> 32) & 0x7FFF
    }

    constructor ()
      ensures View() == R.RxDesc(0, 0, false, false)
    {
      packetBufferAddress, headerBufferAddress := 0, 0;
    }

    method SetPacketAddress(address: bv64)
      modifies this`packetBufferAddress
      ensures packetBufferAddress == address && View() == old(View()).(addr := address as nat)
    {
      packetBufferAddress := address;
    }

    /** Clears the status, and with it the whole write-back word. */
    method ResetStatus()
      modifies this`headerBufferAddress
      ensures View() == R.RxDesc(packetBufferAddress as nat, 0, false, false)
    {
      headerBufferAddress := 0;
    }

    /** The NIC's write-back in the layout of `IGB_adv_rx_desc_wb`: status and error in the low
        32 bits, then the length, then the VLAN tag. The address word is overwritten too. */
    method WriteBack(junk: bv64, status: bv32, length: bv16, vlan: bv16)
      modifies this
      ensures packetBufferAddress == junk && headerBufferAddress == WriteBackWord(status, length, vlan)
      ensures View() == R.RxDesc(junk as nat, length as nat, status & 1 != 0, status & 2 != 0)
    {
      packetBufferAddress := junk;
      headerBufferAddress := WriteBackWord(status, length, vlan);
      DecodeWriteBack(status, length, vlan);
    }

    /** The length the driver reads is the written one modulo 2^15. */
    lemma LengthSeen()
      ensures Length() as nat == R.SeenLength(View())
    {
      FifteenBits(headerBufferAddress);
    }
  }

  function WriteBackWord(status: bv32, length: bv16, vlan: bv16): bv64 {
    ((vlan as bv64) << 48) | ((length as bv64) << 32) | (status as bv64)
  }

  /** Bits 0 to 18, of which the low byte is used. */
  function StatusByte(word: bv64): bv8 {
    ((word & 0x7_FFFF) & 0xFF) as bv8
  }

  /** The 16-bit length field of the second word. */
  function WrittenLength(word: bv64): bv16 {
    ((word >> 32) & 0xFFFF) as bv16
  }

  lemma DecodeWriteBack(status: bv32, length: bv16, vlan: bv16)
    ensures var w := WriteBackWord(status, length, vlan);
      WrittenLength(w) == length && StatusByte(w) == (status & 0xFF) as bv8
      && (StatusByte(w) & RX_STATUS_DD != 0 <==> status & 1 != 0)
      && (StatusByte(w) & RX_STATUS_EOP != 0 <==> status & 2 != 0)
  {
  }

  lemma FifteenBits(word: bv64)
    ensures ((word >> 32) & 0x7FFF) as nat == (WrittenLength(word) as nat) % 0x8000
  {
    LengthBits(word);
    Words.LowBitsWide((word >> 32) & 0x7FFF, WrittenLength(word));
  }

  lemma LengthBits(word: bv64)
    ensures (word >> 32) & 0x7FFF == (WrittenLength(word) & 0x7FFF) as bv64
  {
  }
}
