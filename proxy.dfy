/**
 * HermesProxy: the object between GNU Radio and the Hermes hardware.  It
 * owns the receive buffer pool that ReceiveRxIQ fills from Hermes datagrams
 * and general_work empties, the transmit buffer pool that PutTxIQ fills and
 * SendTxIQ drains, the configuration BuildControlRegs encodes, and the
 * diagnostic counters.
 *
 * The UDP transport is not modelled: what metis_write would send is
 * appended to the ghost log `sent`, one 512-byte USB frame per call.
 */
module Proxy {
  import opened Bits
  import opened HermesConfig
  import Schedule
  import Ring
  import TxDrain
  import Receive
  import Control
  import Transmit

  class HermesProxy {
    /** NUMRXIQBUFS, NUMTXBUFS, TXINITIALBURST, RXBUFSIZE and TXBUFSIZE. */
    const NumRxBufs: nat
    const NumTxBufs: nat
    const TxInitialBurst: nat
    const RxBufSize: nat
    const TxBufSize: nat

    /** The receive buffers hold the integers Unpack2C divides by 8388607.0. */
    const RxIQBuf: seq<array<int>>
    const TxBuf: seq<array<Byte>>

    var config: Config
    var status: Status

    var RxWriteCounter: nat
    var RxReadCounter: nat
    var TxWriteCounter: nat
    var TxReadCounter: nat
    var TxControlCycler: nat
    var TxHoldOff: bool
    var TxStop: bool

    var LostRxBufCount: nat
    var TotalRxBufCount: nat
    var LostTxBufCount: nat
    var TotalTxBufCount: nat
    var CorruptRxCount: nat
    var LostEthernetRx: nat
    var CurrentEthSeqNum: nat

    /** The USB frames handed to metis_write, in order. */
    ghost var sent: seq<seq<Byte>>

    ghost predicate Valid()
      reads this`config, this`RxWriteCounter, this`RxReadCounter, this`TxWriteCounter, this`TxReadCounter
      reads this`TxControlCycler
    {
      && Shape()
      && Ring.Valid(RxRing(), NumRxBufs) && Ring.Valid(TxRing(), NumTxBufs)
      && WellFormed(config) && 1 <= config.NumReceivers <= 8
      && Transmit.CyclerValue(TxControlCycler)
    }

    /** What the constructor fixes for good: the pool sizes and distinct
        buffers of the right lengths. */
    ghost predicate Shape()
    {
      && IsPow2(NumRxBufs) && IsPow2(NumTxBufs)
      && |RxIQBuf| == NumRxBufs
      && RxBufSize >= 160 && TxShape()
      && (forall i :: 0 <= i < NumRxBufs ==> RxIQBuf[i].Length == RxBufSize)
      && (forall i, j :: 0 <= i < NumRxBufs && 0 <= j < NumRxBufs && i != j ==> RxIQBuf[i] != RxIQBuf[j])
      && (forall i, j :: 0 <= i < NumTxBufs && 0 <= j < NumTxBufs && i != j ==> TxBuf[i] != TxBuf[j])
    }

    /** The transmit slots: NumTxBufs of them, TxBufSize bytes each. */
    ghost predicate TxShape()
    {
      |TxBuf| == NumTxBufs && TxBufSize >= 512 && forall i :: 0 <= i < NumTxBufs ==> TxBuf[i].Length == TxBufSize
    }

    /** RxWriteCounter and RxReadCounter. */
    ghost function RxRing(): Ring.Ring
      reads this`RxWriteCounter, this`RxReadCounter
    {
      Ring.Ring(RxWriteCounter, RxReadCounter)
    }

    /** TxWriteCounter and TxReadCounter. */
    ghost function TxRing(): Ring.Ring
      reads this`TxWriteCounter, this`TxReadCounter
    {
      Ring.Ring(TxWriteCounter, TxReadCounter)
    }

    /** The state SendTxIQ works on. */
    ghost function TxState(): TxDrain.Drain
      reads this`TxWriteCounter, this`TxReadCounter, this`TxHoldOff, this`TxStop
      reads this`TotalTxBufCount, this`LostTxBufCount
    {
      TxDrain.Drain(TxRing(), TxHoldOff, TxStop, TotalTxBufCount, LostTxBufCount)
    }

    ghost function RxBufs(): set<array<int>>
    {
      set i | 0 <= i < |RxIQBuf| :: RxIQBuf[i]
    }

    /** The contents of the receive buffers. */
    ghost function RxContents(): (s: seq<seq<int>>)
      reads RxBufs()
      ensures |s| == |RxIQBuf|
    {
      seq(|RxIQBuf|, i requires 0 <= i < |RxIQBuf| reads RxBufs() => RxIQBuf[i][..])
    }

    ghost function TxBufs(): set<array<Byte>>
    {
      set i | 0 <= i < |TxBuf| :: TxBuf[i]
    }

    /** The USB frames held by the transmit slots `slots`, in order: what
        metis_write sends for them. */
    ghost function Written(slots: seq<nat>): (frames: seq<seq<Byte>>)
      requires TxShape() && forall i :: 0 <= i < |slots| ==> slots[i] < NumTxBufs
      reads TxBufs()
      ensures |frames| == |slots|
    {
      seq(|slots|, i requires 0 <= i < |slots| reads TxBufs() => TxBuf[slots[i]][..512])
    }

    // -------------------------------------------------------- constructor

    /** The HermesProxy constructor: stores the settings, zeroes the ring
        indices and counters, allocates the buffer pools (their contents are
        whatever the allocator leaves) and ends with UpdateHermes.  The
        integer PTTModeSel arrives already as a PttMode and the clock-source
        string as its parsed word clkS. */
    constructor(rxFreq: seq<int>, txFreq: int, rxPre: int, pttModeSel: PttMode, pttTxMute: int, pttRxMute: int,
                txDr: Byte, rxSmp: int, clkS: bv32, alexRA: int, alexTA: int, alexHPF: int, alexLPF: int,
                numRx: int, numRxBufs: nat, numTxBufs: nat, txInitialBurst: nat, rxBufSize: nat, txBufSize: nat)
      requires |rxFreq| == 8 && 1 <= numRx <= 8
      requires IsPow2(numRxBufs) && IsPow2(numTxBufs) && rxBufSize >= 160 && txBufSize >= 512
      ensures Valid()
      ensures config == Config(rxSmp, numRx, ClockSourceOf(clkS), alexRA, alexTA, alexHPF, alexLPF,
                               seq(8, i requires 0 <= i < 8 => Unsigned32(rxFreq[i])), Unsigned32(txFreq),
                               txDr, pttModeSel, rxPre != 0, pttTxMute != 0, pttRxMute != 0,
                               false, false, 0x00, true)
      ensures NumRxBufs == numRxBufs && NumTxBufs == numTxBufs && TxInitialBurst == txInitialBurst
      ensures RxBufSize == rxBufSize && TxBufSize == txBufSize
      ensures Reset()
      ensures sent == Control.StartupSequence(config)
      ensures TxBuf[0][..512] == Control.ControlOnly(config, 0)
    {
      NumRxBufs, NumTxBufs, TxInitialBurst := numRxBufs, numTxBufs, txInitialBurst;
      RxBufSize, TxBufSize := rxBufSize, txBufSize;
      config := Config(rxSmp, numRx, ClockSourceOf(clkS), alexRA, alexTA, alexHPF, alexLPF,
                       seq(8, i requires 0 <= i < 8 => Unsigned32(rxFreq[i])), Unsigned32(txFreq),
                       txDr, pttModeSel, rxPre != 0, pttTxMute != 0, pttRxMute != 0,
                       false, false, 0x00, true);
      TxStop := false;
      RxWriteCounter, RxReadCounter := 0, 0;
      TxWriteCounter, TxReadCounter, TxControlCycler := 0, 0, 0;
      LostRxBufCount, TotalRxBufCount, LostTxBufCount, TotalTxBufCount := 0, 0, 0, 0;
      CorruptRxCount, LostEthernetRx, CurrentEthSeqNum := 0, 0, 0;
      TxHoldOff := false;
      sent := [];
      var rx := NewRxPool(numRxBufs, rxBufSize);
      var tx := NewTxPool(numTxBufs, txBufSize);
      RxIQBuf, TxBuf := rx, tx;
      new;
      assert Reset() && Valid();
      UpdateHermes();
    }

    /** Both rings empty at slot 0, the bank cycler at bank 0, transmission
        neither held off nor stopped, and every counter zero. */
    ghost predicate Reset()
      reads this`RxWriteCounter, this`RxReadCounter, this`TxWriteCounter, this`TxReadCounter
      reads this`TxControlCycler, this`TxHoldOff, this`TxStop
      reads this`LostRxBufCount, this`TotalRxBufCount, this`LostTxBufCount, this`TotalTxBufCount
      reads this`CorruptRxCount, this`LostEthernetRx, this`CurrentEthSeqNum
    {
      && RxRing() == Ring.Ring(0, 0) && TxRing() == Ring.Ring(0, 0) && TxControlCycler == 0
      && !TxHoldOff && !TxStop
      && LostRxBufCount == 0 && TotalRxBufCount == 0 && LostTxBufCount == 0 && TotalTxBufCount == 0
      && CorruptRxCount == 0 && LostEthernetRx == 0 && CurrentEthSeqNum == 0
    }

    /** NUMRXIQBUFS distinct new receive buffers of RXBUFSIZE entries. */
    static method NewRxPool(n: nat, size: nat) returns (rx: seq<array<int>>)
      ensures |rx| == n
      ensures forall i :: 0 <= i < n ==> rx[i].Length == size && fresh(rx[i])
      ensures forall i, j :: 0 <= i < n && 0 <= j < n && i != j ==> rx[i] != rx[j]
    {
      rx := [];
      while |rx| < n
        invariant |rx| <= n
        invariant forall i :: 0 <= i < |rx| ==> rx[i].Length == size && fresh(rx[i])
        invariant forall i, j :: 0 <= i < |rx| && 0 <= j < |rx| && i != j ==> rx[i] != rx[j]
      {
        var a := new int[size];
        rx := rx + [a];
      }
    }

    /** NUMTXBUFS distinct new transmit buffers of TXBUFSIZE bytes. */
    static method NewTxPool(n: nat, size: nat) returns (tx: seq<array<Byte>>)
      ensures |tx| == n
      ensures forall i :: 0 <= i < n ==> tx[i].Length == size && fresh(tx[i])
      ensures forall i, j :: 0 <= i < n && 0 <= j < n && i != j ==> tx[i] != tx[j]
    {
      tx := [];
      while |tx| < n
        invariant |tx| <= n
        invariant forall i :: 0 <= i < |tx| ==> tx[i].Length == size && fresh(tx[i])
        invariant forall i, j :: 0 <= i < |tx| && 0 <= j < |tx| && i != j ==> tx[i] != tx[j]
      {
        var a := new Byte[size];
        tx := tx + [a];
      }
    }

    // ------------------------------------------------------------ control

    /** Writes the sync bytes and the control block of bank regNum into
        bytes 0 .. 7 of outbuf and no other byte.  For a bank it does not
        know it writes only bytes 0 .. 3. */
    method BuildControlRegs(regNum: nat, outbuf: array<Byte>)
      requires WellFormed(config) && outbuf.Length >= 8
      modifies outbuf
      ensures outbuf[..8] == Control.ControlFrame(config, regNum, old(outbuf[4..8]))
      ensures outbuf[8..] == old(outbuf[8..])
    {
      outbuf[0], outbuf[1], outbuf[2] := 0x7F, 0x7F, 0x7F;
      outbuf[3] := LowByte(regNum);
      if config.PTTMode == PTTOn {
        outbuf[3] := outbuf[3] | 0x01;
      }
      assert outbuf[..4] == Control.Header(config, regNum);
      BankRegs(regNum, outbuf);
      assert outbuf[..8] == outbuf[..4] + outbuf[4..8];
    }

    /** The switch on the bank: C1 .. C4 of bank regNum, untouched for a bank
        not listed. */
    method BankRegs(regNum: nat, outbuf: array<Byte>)
      requires WellFormed(config) && outbuf.Length >= 8
      modifies outbuf
      ensures var p := Control.Payload(config, regNum);
              outbuf[4..8] == if p.Some? then p.value else old(outbuf[4..8])
      ensures outbuf[..4] == old(outbuf[..4]) && outbuf[8..] == old(outbuf[8..])
    {
      if regNum == 0 {
        var speed := config.ClockSource | Control.RateCode(config.RxSampleRate);
        var rxCtrl := Control.RxControl(config);
        var ctrl4 := Control.ReceiverControl(config);
        PutPayload([speed, 0x00, rxCtrl | LowByte(config.AlexRxAnt),
                    (ctrl4 | LowByte(config.AlexTxAnt)) | 0x80], outbuf);
      } else if regNum == 2 {
        PutPayload(BE32Bytes(config.TransmitFrequency), outbuf);
      } else if 4 <= regNum <= 16 && regNum % 2 == 0 {
        PutPayload(BE32Bytes(config.ReceiveFrequency[(regNum - 4) / 2]), outbuf);
      } else if regNum == 18 {
        var drive := if TxMuted(config) then 0x00 else config.TxDrive;
        PutPayload([drive, 0x40, Control.RxHPF(config) & 0x7F, Control.TxLPF(config) & 0x7F], outbuf);
      } else if regNum == 20 {
        PutPayload([0x00, 0x17, 0x00, config.RxAtten], outbuf);
      } else if regNum == 22 {
        PutPayload([0x00, 0x00, 0x00, 0x00], outbuf);
      }
    }

    /** C1 .. C4 := p */
    static method PutPayload(p: seq<Byte>, outbuf: array<Byte>)
      requires |p| == 4 && outbuf.Length >= 8
      modifies outbuf
      ensures outbuf[4..8] == p
      ensures outbuf[..4] == old(outbuf[..4]) && outbuf[8..] == old(outbuf[8..])
    {
      outbuf[4], outbuf[5], outbuf[6], outbuf[7] := p[0], p[1], p[2], p[3];
    }

    // -------------------------------------------------------------- rings

    /** The next writable receive buffer, or null (counting a lost buffer)
        when the pool is full. */
    method GetNextRxBuf() returns (b: array?<int>)
      requires Valid()
      modifies this`RxWriteCounter, this`LostRxBufCount
      ensures Valid()
      ensures Ring.Claim(old(RxRing()), NumRxBufs).None? ==>
                b == null && RxRing() == old(RxRing()) && LostRxBufCount == old(LostRxBufCount) + 1
      ensures Ring.Claim(old(RxRing()), NumRxBufs).Some? ==>
                && RxRing() == Ring.Claim(old(RxRing()), NumRxBufs).value
                && b == RxIQBuf[RxWriteCounter] && LostRxBufCount == old(LostRxBufCount)
    {
      Ring.ClaimSpec(RxRing(), NumRxBufs);
      if And(RxWriteCounter + 1, NumRxBufs - 1) == RxReadCounter {
        LostRxBufCount := LostRxBufCount + 1;
        return null;
      }
      RxWriteCounter := And(RxWriteCounter + 1, NumRxBufs - 1);
      return RxIQBuf[RxWriteCounter];
    }

    /** The next readable receive buffer, or null when the pool is empty. */
    method GetRxIQ() returns (b: array?<int>)
      requires Valid()
      modifies this`RxReadCounter
      ensures Valid()
      ensures Ring.Take(old(RxRing()), NumRxBufs).None? ==> b == null && RxRing() == old(RxRing())
      ensures Ring.Take(old(RxRing()), NumRxBufs).Some? ==>
                && RxRing() == Ring.Take(old(RxRing()), NumRxBufs).value
                && b == RxIQBuf[old(RxReadCounter)]
    {
      Ring.TakeSpec(RxRing(), NumRxBufs);
      if RxReadCounter == RxWriteCounter {
        return null;
      }
      b := RxIQBuf[RxReadCounter];
      RxReadCounter := And(RxReadCounter + 1, NumRxBufs - 1);
    }

    /** The next writable transmit buffer, or null when the pool is full. */
    method GetNextTxBuf() returns (b: array?<Byte>)
      requires Valid()
      modifies this`TxWriteCounter
      ensures Valid()
      ensures Ring.Claim(old(TxRing()), NumTxBufs).None? ==> b == null && TxRing() == old(TxRing())
      ensures Ring.Claim(old(TxRing()), NumTxBufs).Some? ==>
                TxRing() == Ring.Claim(old(TxRing()), NumTxBufs).value && b == TxBuf[TxWriteCounter]
    {
      Ring.ClaimSpec(TxRing(), NumTxBufs);
      if And(TxWriteCounter + 1, NumTxBufs - 1) == TxReadCounter {
        return null;
      }
      TxWriteCounter := And(TxWriteCounter + 1, NumTxBufs - 1);
      return TxBuf[TxWriteCounter];
    }

    // ---------------------------------------------------------- transmit

    /** PutTxIQ: claims the next transmit slot and fills it with a frame for
        the next register bank and the given samples (63 of them from
        general_work); returns how many samples it consumed.  With no free
        slot it consumes none and changes nothing. */
    method PutTxIQ(samples: seq<Transmit.Sample>) returns (consumed: nat)
      requires Valid() && 8 + 8 * |samples| <= TxBufSize
      modifies this`TxWriteCounter, this`TxControlCycler, TxBufs()
      ensures Valid()
      ensures Ring.Claim(old(TxRing()), NumTxBufs).None? ==>
                && consumed == 0 && TxRing() == old(TxRing()) && TxControlCycler == old(TxControlCycler)
                && forall j :: 0 <= j < NumTxBufs ==> TxBuf[j][..] == old(TxBuf[j][..])
      ensures Ring.Claim(old(TxRing()), NumTxBufs).Some? ==>
                var slot, n := Ring.Claim(old(TxRing()), NumTxBufs).value.w, 8 + 8 * |samples|;
                && consumed == |samples| && TxRing() == Ring.Claim(old(TxRing()), NumTxBufs).value
                && TxControlCycler == Transmit.NextBank(old(TxControlCycler))
                && TxBuf[slot][..n] == Transmit.TxFrame(config, TxControlCycler, old(TxBuf[slot][4..8]), samples)
                && TxBuf[slot][n..] == old(TxBuf[slot][n..])
                && forall j :: 0 <= j < NumTxBufs && j != slot ==> TxBuf[j][..] == old(TxBuf[j][..])
    {
      var outbuf := GetNextTxBuf();
      if outbuf == null {
        return 0;
      }
      AdvanceCycler();
      ghost var slot := TxWriteCounter;
      assert outbuf == TxBuf[slot];
      FillTxFrame(TxControlCycler, outbuf, samples);
      return |samples|;
    }

    /** The bank cycler steps by two and wraps back to bank 0 after 0x14. */
    method AdvanceCycler()
      requires Valid()
      modifies this`TxControlCycler
      ensures Valid() && TxControlCycler == Transmit.NextBank(old(TxControlCycler))
    {
      TxControlCycler := TxControlCycler + 2;
      if TxControlCycler > 0x14 {
        TxControlCycler := 0;
      }
    }

    /** The frame of PutTxIQ in outbuf: the control block of bank, the rows
        of the samples, then the Vox check. */
    method FillTxFrame(bank: nat, outbuf: array<Byte>, samples: seq<Transmit.Sample>)
      requires WellFormed(config) && outbuf.Length >= 8 + 8 * |samples|
      modifies outbuf
      ensures outbuf[..8 + 8 * |samples|] == Transmit.TxFrame(config, bank, old(outbuf[4..8]), samples)
      ensures outbuf[8 + 8 * |samples|..] == old(outbuf[8 + 8 * |samples|..])
    {
      BuildControlRegs(bank, outbuf);
      assert outbuf[8 + 8 * |samples|..] == old(outbuf[8 + 8 * |samples|..]) by {
        assert outbuf[8 + 8 * |samples|..] == outbuf[8..][8 * |samples|..];
        assert old(outbuf[8 + 8 * |samples|..]) == old(outbuf[8..])[8 * |samples|..];
      }
      RowsAndVox(outbuf, samples, outbuf[..8]);
    }

    /** The rows and the Vox check after the control block ctrl. */
    method RowsAndVox(outbuf: array<Byte>, samples: seq<Transmit.Sample>, ghost ctrl: seq<Byte>)
      requires outbuf.Length >= 8 + 8 * |samples| && outbuf[..8] == ctrl
      modifies outbuf
      ensures outbuf[..8 + 8 * |samples|] == Transmit.WithRows(config, ctrl, samples)
      ensures outbuf[8 + 8 * |samples|..] == old(outbuf[8 + 8 * |samples|..])
    {
      ghost var before := outbuf[..];
      PutRows(config, outbuf, samples);
      var activity := false;
      if config.PTTMode == PTTVox {
        activity := VoxActivity(config, outbuf, samples);
        if activity {
          outbuf[3] := outbuf[3] | 0x01;
        }
      }
      Transmit.FrameOf(ctrl, outbuf[..], config, samples, activity);
      SameOutside(before, outbuf[..], 0, 8 + 8 * |samples|);
    }

    /** The sample rows: zero audio words, then the I word (from the
        imaginary part) and the Q word (from the real part), or zeros while
        PTT-off muting applies.  Bytes before 8 and after the rows are kept. */
    static method PutRows(c: Config, outbuf: array<Byte>, samples: seq<Transmit.Sample>)
      requires outbuf.Length >= 8 + 8 * |samples|
      modifies outbuf
      ensures forall k :: 0 <= k < outbuf.Length ==>
                outbuf[k] == if 8 <= k < 8 + 8 * |samples| then Transmit.Rows(c, samples)[k - 8] else old(outbuf[k])
    {
      ghost var rows := Transmit.Rows(c, samples);
      var i := 0;
      while i < |samples|
        invariant 0 <= i <= |samples|
        invariant forall k :: 0 <= k < outbuf.Length ==>
                    outbuf[k] == if 8 <= k < 8 + 8 * i then rows[k - 8] else old(outbuf[k])
      {
        Transmit.RowByte(c, samples, i);
        PutRow(c, outbuf, i * 8 + 8, samples[i]);
        i := i + 1;
      }
    }

    /** The row of sample s at bytes at .. at + 7 (`outbuf[i*8 + 8]` ..
        `outbuf[i*8 + 15]`): the four zero audio bytes, then the I word and
        the Q word. */
    static method PutRow(c: Config, outbuf: array<Byte>, at: nat, s: Transmit.Sample)
      requires at + 8 <= outbuf.Length
      modifies outbuf
      ensures forall k :: 0 <= k < outbuf.Length ==>
                outbuf[k] == if at <= k < at + 8 then Transmit.Row(c, s)[k - at] else old(outbuf[k])
    {
      var row := [0x00, 0x00, 0x00, 0x00] + Transmit.IQBytes(c, s);
      forall j | 0 <= j < 8 {
        outbuf[at + j] := row[j];
      }
    }

    /** Two byte strings that agree outside a .. b - 1 agree on their parts
        before a and from b on. */
    static lemma SameOutside(x: seq<Byte>, y: seq<Byte>, a: nat, b: nat)
      requires a <= b <= |x| == |y|
      requires forall k :: 0 <= k < |x| && (k < a || b <= k) ==> y[k] == x[k]
      ensures y[..a] == x[..a] && y[b..] == x[b..]
    {
    }

    /** The Vox check: whether some row carries a nonzero I or Q byte. */
    static method VoxActivity(c: Config, outbuf: array<Byte>, samples: seq<Transmit.Sample>) returns (activity: bool)
      requires outbuf.Length >= 8 + 8 * |samples|
      requires forall k :: 8 <= k < 8 + 8 * |samples| ==> outbuf[k] == Transmit.Rows(c, samples)[k - 8]
      ensures activity == Transmit.Activity(c, samples)
    {
      var i := 0;
      while i < |samples|
        invariant 0 <= i <= |samples|
        invariant forall j :: 0 <= j < i ==> Transmit.IQBytes(c, samples[j]) == [0x00, 0x00, 0x00, 0x00]
      {
        Transmit.RowByte(c, samples, i);
        ghost var iq := [outbuf[i * 8 + 12], outbuf[i * 8 + 13], outbuf[i * 8 + 14], outbuf[i * 8 + 15]];
        assert iq == Transmit.IQBytes(c, samples[i]);
        if outbuf[i * 8 + 12] != 0 || outbuf[i * 8 + 13] != 0 || outbuf[i * 8 + 14] != 0 || outbuf[i * 8 + 15] != 0 {
          return true;
        }
        i := i + 1;
      }
      return false;
    }

    // ------------------------------------------------------------- drain

    /** Sends what TxDrain.Send decides: the new transmit state is Send's,
        and the frames of the slots it names are appended to the log. */
    method SendTxIQ()
      requires Valid()
      modifies this`TxReadCounter, this`TxHoldOff, this`TotalTxBufCount, this`LostTxBufCount, this`sent
      ensures Valid()
      ensures TxState() == TxDrain.Send(old(TxState()), NumTxBufs, TxInitialBurst).0
      ensures var slots := TxDrain.Send(old(TxState()), NumTxBufs, TxInitialBurst).1;
              forall i :: 0 <= i < |slots| ==> slots[i] < NumTxBufs
      ensures sent == old(sent) + Written(TxDrain.Send(old(TxState()), NumTxBufs, TxInitialBurst).1)
    {
      if TxStop {
        return;
      }
      TotalTxBufCount := TotalTxBufCount + 1;
      if TxHoldOff {
        ReleaseBurst();
      } else {
        SendSteady();
      }
    }

    /** The hold-off branch of SendTxIQ: once 2 * TXINITIALBURST slots are
        queued (bufBurst), leave hold-off and send them all. */
    method ReleaseBurst()
      requires Valid()
      modifies this`TxReadCounter, this`TxHoldOff, this`sent
      ensures Valid()
      ensures TxState() == TxDrain.Release(old(TxState()), NumTxBufs, TxInitialBurst).0
      ensures var slots := TxDrain.Release(old(TxState()), NumTxBufs, TxInitialBurst).1;
              forall i :: 0 <= i < |slots| ==> slots[i] < NumTxBufs
      ensures sent == old(sent) + Written(TxDrain.Release(old(TxState()), NumTxBufs, TxInitialBurst).1)
    {
      var tempWriteCounter := TxWriteCounter;
      if TxWriteCounter < TxReadCounter {
        tempWriteCounter := tempWriteCounter + NumTxBufs;
      }
      var bufBurst := tempWriteCounter - TxReadCounter >= TxInitialBurst * 2;
      if !bufBurst {
        return;
      }
      TxHoldOff := false;
      WriteFrames(TxInitialBurst * 2);
    }

    /** The steady branch of SendTxIQ: with fewer than two slots queued
        (bufEmpty or bufOne) count a lost buffer, otherwise send two. */
    method SendSteady()
      requires Valid()
      modifies this`TxReadCounter, this`LostTxBufCount, this`sent
      ensures Valid()
      ensures TxState() == TxDrain.Steady(old(TxState()), NumTxBufs).0
      ensures var slots := TxDrain.Steady(old(TxState()), NumTxBufs).1;
              forall i :: 0 <= i < |slots| ==> slots[i] < NumTxBufs
      ensures sent == old(sent) + Written(TxDrain.Steady(old(TxState()), NumTxBufs).1)
    {
      var bufEmpty := TxReadCounter == TxWriteCounter;
      var bufOne := And(TxReadCounter + 1, NumTxBufs - 1) == TxWriteCounter;
      if bufEmpty || bufOne {
        LostTxBufCount := LostTxBufCount + 1;
        return;
      }
      WriteFrames(2);
    }

    /** n rounds of "metis_write slot TxReadCounter, then free it". */
    method WriteFrames(n: nat)
      requires Valid()
      modifies this`TxReadCounter, this`sent
      ensures Valid()
      ensures TxReadCounter == TxDrain.WalkEnd(old(TxReadCounter), n, NumTxBufs)
      ensures sent == old(sent) + Written(TxDrain.Walk(old(TxReadCounter), n, NumTxBufs))
    {
      var i := 0;
      ghost var slots: seq<nat> := [];
      ghost var k := |sent|;
      while i < n
        invariant 0 <= i <= n && Valid()
        invariant slots == TxDrain.Walk(old(TxReadCounter), i, NumTxBufs)
        invariant TxReadCounter == TxDrain.WalkEnd(old(TxReadCounter), i, NumTxBufs)
        invariant |sent| == k + i && sent[..k] == old(sent)
        invariant forall j :: 0 <= j < i ==> sent[k + j] == TxBuf[slots[j]][..512]
      {
        TxDrain.WalkSnoc(old(TxReadCounter), i, NumTxBufs);
        slots := slots + [TxReadCounter];
        ghost var prev := sent;
        WriteOne();
        assert sent == prev + [TxBuf[slots[i]][..512]];
        i := i + 1;
      }
      assert sent == old(sent) + Written(slots);
    }

    /** One round: metis_write the slot at TxReadCounter, then free it. */
    method WriteOne()
      requires Valid()
      modifies this`TxReadCounter, this`sent
      ensures Valid()
      ensures TxReadCounter == Ring.Advance(old(TxReadCounter), NumTxBufs)
      ensures sent == old(sent) + [TxBuf[old(TxReadCounter)][..512]]
    {
      sent := sent + [TxBuf[TxReadCounter][..512]];
      TxReadCounter := And(TxReadCounter + 1, NumTxBufs - 1);
    }

    /** A transmit frame is sent exactly when the schedule fires for this
        count of received datagrams. */
    method ScheduleTxFrame(rxBufCount: nat)
      requires Valid() && Schedule.ScheduleDefined(config.NumReceivers, config.RxSampleRate)
      modifies this`TxReadCounter, this`TxHoldOff, this`TotalTxBufCount, this`LostTxBufCount, this`sent
      ensures Valid()
      ensures var fire := Schedule.Fires(config.NumReceivers, config.RxSampleRate, rxBufCount);
              var res := TxDrain.Send(old(TxState()), NumTxBufs, TxInitialBurst);
              && (forall i :: 0 <= i < |res.1| ==> res.1[i] < NumTxBufs)
              && TxState() == (if fire then res.0 else old(TxState()))
              && sent == old(sent) + (if fire then old(Written(res.1)) else [])
    {
      TxDrain.NeverOvertakes(TxState(), NumTxBufs, TxInitialBurst);
      if Schedule.Fires(config.NumReceivers, config.RxSampleRate, rxBufCount) {
        SendTxIQ();
      }
    }

    // ------------------------------------------------------------ receive

    /** Called for each datagram from Hermes: tracks the sequence number,
        counts the datagram and lets the scheduler send, checks both USB
        frames' sync and decodes their status, and then unpacks each frame
        into a freshly claimed receive buffer. */
    method ReceiveRxIQ(dg: seq<Byte>)
      requires Valid() && |dg| >= Receive.DatagramSize
      requires Schedule.ScheduleDefined(config.NumReceivers, config.RxSampleRate)
      modifies this`CurrentEthSeqNum, this`LostEthernetRx, this`TotalRxBufCount
      modifies this`TxReadCounter, this`TxHoldOff, this`TotalTxBufCount, this`LostTxBufCount, this`sent
      modifies this`status, this`CorruptRxCount, this`RxWriteCounter, this`LostRxBufCount
      modifies RxBufs()
      ensures Valid()
      ensures Receive.SeqTrack(CurrentEthSeqNum, LostEthernetRx)
              == Receive.Track(old(Receive.SeqTrack(CurrentEthSeqNum, LostEthernetRx)), Receive.SequenceNumber(dg))
      ensures TotalRxBufCount == old(TotalRxBufCount) + 1
      ensures var fire := Schedule.Fires(old(config.NumReceivers), old(config.RxSampleRate), old(TotalRxBufCount) + 1);
              var res := TxDrain.Send(old(TxState()), NumTxBufs, TxInitialBurst);
              && (forall i :: 0 <= i < |res.1| ==> res.1[i] < NumTxBufs)
              && TxState() == (if fire then res.0 else old(TxState()))
              && sent == old(sent) + (if fire then old(Written(res.1)) else [])
      ensures status == Receive.StatusFrom(old(status), dg, 0)
      ensures CorruptRxCount == old(CorruptRxCount) + (if Receive.InSync(dg) then 0 else 1)
      ensures !Receive.InSync(dg) ==>
                RxRing() == old(RxRing()) && LostRxBufCount == old(LostRxBufCount) && RxContents() == old(RxContents())
      ensures Receive.InSync(dg) ==> Unpacked(dg, old(RxRing()), old(LostRxBufCount), old(RxContents()))
    {
      ghost var g0, lost0, before := RxRing(), LostRxBufCount, RxContents();
      ReceiveHeader(dg);
      ReceiveFrames(dg, g0, lost0, before);
    }

    /** The first part of ReceiveRxIQ: the sequence number, the datagram
        count and the scheduler. */
    method ReceiveHeader(dg: seq<Byte>)
      requires Valid() && |dg| >= Receive.DatagramSize
      requires Schedule.ScheduleDefined(config.NumReceivers, config.RxSampleRate)
      modifies this`CurrentEthSeqNum, this`LostEthernetRx, this`TotalRxBufCount
      modifies this`TxReadCounter, this`TxHoldOff, this`TotalTxBufCount, this`LostTxBufCount, this`sent
      ensures Valid()
      ensures Receive.SeqTrack(CurrentEthSeqNum, LostEthernetRx)
              == Receive.Track(old(Receive.SeqTrack(CurrentEthSeqNum, LostEthernetRx)), Receive.SequenceNumber(dg))
      ensures TotalRxBufCount == old(TotalRxBufCount) + 1
      ensures var fire := Schedule.Fires(old(config.NumReceivers), old(config.RxSampleRate), old(TotalRxBufCount) + 1);
              var res := TxDrain.Send(old(TxState()), NumTxBufs, TxInitialBurst);
              && (forall i :: 0 <= i < |res.1| ==> res.1[i] < NumTxBufs)
              && TxState() == (if fire then res.0 else old(TxState()))
              && sent == old(sent) + (if fire then old(Written(res.1)) else [])
    {
      // The scheduler reads none of the counters updated before it, so it
      // is called first, with the datagram count it sees.
      ScheduleTxFrame(TotalRxBufCount + 1);
      CountDatagram(Receive.SequenceNumber(dg));
    }

    /** Counts a datagram with sequence number seqNum: one past the next
        expected one counts the gap as lost and jumps to it, the next
        expected one just advances, and an older one changes nothing. */
    method CountDatagram(seqNum: nat)
      requires Valid()
      modifies this`CurrentEthSeqNum, this`LostEthernetRx, this`TotalRxBufCount
      ensures Valid()
      ensures Receive.SeqTrack(CurrentEthSeqNum, LostEthernetRx)
              == Receive.Track(old(Receive.SeqTrack(CurrentEthSeqNum, LostEthernetRx)), seqNum)
      ensures TotalRxBufCount == old(TotalRxBufCount) + 1
    {
      if seqNum > CurrentEthSeqNum + 1 {
        LostEthernetRx := LostEthernetRx + (seqNum - CurrentEthSeqNum);
        CurrentEthSeqNum := seqNum;
      } else if seqNum == CurrentEthSeqNum + 1 {
        CurrentEthSeqNum := CurrentEthSeqNum + 1;
      }
      TotalRxBufCount := TotalRxBufCount + 1;
    }

    /** The second part of ReceiveRxIQ: the sync check and status of both
        frames, then the unpacking when both are in sync. */
    method ReceiveFrames(dg: seq<Byte>, ghost g0: Ring.Ring, ghost lost0: nat, ghost before: seq<seq<int>>)
      requires Valid() && |dg| >= Receive.DatagramSize
      requires RxRing() == g0 && LostRxBufCount == lost0 && RxContents() == before
      modifies this`status, this`CorruptRxCount, this`RxWriteCounter, this`LostRxBufCount
      modifies RxBufs()
      ensures Valid()
      ensures Receive.SeqTrack(CurrentEthSeqNum, LostEthernetRx) == old(Receive.SeqTrack(CurrentEthSeqNum, LostEthernetRx))
      ensures TotalRxBufCount == old(TotalRxBufCount) && TxState() == old(TxState()) && sent == old(sent)
      ensures status == Receive.StatusFrom(old(status), dg, 0)
      ensures CorruptRxCount == old(CorruptRxCount) + (if Receive.InSync(dg) then 0 else 1)
      ensures !Receive.InSync(dg) ==>
                RxRing() == g0 && LostRxBufCount == lost0 && RxContents() == before
      ensures Receive.InSync(dg) ==> Unpacked(dg, g0, lost0, before)
    {
      var ok := CheckFrames(dg);
      if !ok {
        return;
      }
      UnpackFrames(dg, g0, lost0, before);
    }

    /** The sync check and status decoding of both USB frames; the first
        frame out of sync counts one corrupt datagram and ends the scan. */
    method CheckFrames(dg: seq<Byte>) returns (ok: bool)
      requires |dg| >= Receive.DatagramSize
      modifies this`status, this`CorruptRxCount
      ensures ok == Receive.InSync(dg)
      ensures status == Receive.StatusFrom(old(status), dg, 0)
      ensures CorruptRxCount == old(CorruptRxCount) + (if ok then 0 else 1)
    {
      var k := 0;
      while k < 2
        invariant 0 <= k <= 2
        invariant Receive.StatusFrom(status, dg, k) == Receive.StatusFrom(old(status), dg, 0)
        invariant forall i :: 0 <= i < k ==> Receive.SyncOK(dg, Receive.FrameStart[i])
        invariant CorruptRxCount == old(CorruptRxCount)
      {
        var at := Receive.FrameStart[k];
        if !(dg[at] == 0x7F && dg[at + 1] == 0x7F && dg[at + 2] == 0x7F) {
          CorruptRxCount := CorruptRxCount + 1;
          return false;
        }
        status := Receive.DecodeStatus(status, dg[at + 3 .. at + 8]);
        k := k + 1;
      }
      return true;
    }

    /** The receive side after both frames of dg were unpacked, starting
        from ring g0, lost-buffer count lost0 and buffer contents before: up
        to two claims, stopping at the first refused one (which counts one
        lost buffer); claimed buffer i holds the values of frame i; every
        other buffer, in particular every one still queued for the reader,
        is as it was. */
    ghost predicate Unpacked(dg: seq<Byte>, g0: Ring.Ring, lost0: nat, before: seq<seq<int>>)
      requires Valid() && Ring.Valid(g0, NumRxBufs) && |dg| >= Receive.DatagramSize
      requires |before| == NumRxBufs
      reads this, RxBufs()
    {
      var run := Ring.ClaimUpTo(g0, NumRxBufs, 2);
      && RxRing() == run.0
      && LostRxBufCount == lost0 + (if run.2 then 1 else 0)
      && (forall i :: 0 <= i < |run.1| ==>
            run.1[i] < NumRxBufs
            && Receive.LaidOut(config, dg, Receive.SampleStart[i],
                               RxIQBuf[run.1[i]][..Receive.FrameValues(config.NumReceivers)]))
      && (forall j :: 0 <= j < NumRxBufs && j !in run.1 ==> RxIQBuf[j][..] == before[j])
    }

    /** The second loop of ReceiveRxIQ: one claimed buffer per USB frame,
        giving up at the first frame for which no buffer is free. */
    method UnpackFrames(dg: seq<Byte>, ghost g0: Ring.Ring, ghost lost0: nat, ghost before: seq<seq<int>>)
      requires Valid() && |dg| >= Receive.DatagramSize
      requires RxRing() == g0 && LostRxBufCount == lost0 && RxContents() == before
      modifies this`RxWriteCounter, this`LostRxBufCount
      modifies RxBufs()
      ensures Valid()
      ensures Unpacked(dg, g0, lost0, before)
    {
      ghost var len := Receive.FrameValues(config.NumReceivers);
      ghost var s0 := Receive.SomeLaidOut(config, dg, Receive.SampleStart[0]);
      ghost var s1 := Receive.SomeLaidOut(config, dg, Receive.SampleStart[1]);
      ghost var vals := [s0, s1];
      ghost var done: seq<nat> := [];
      var f := 0;
      while f < 2
        invariant 0 <= f <= 2 && |done| == f && Valid()
        invariant Ring.ClaimUpTo(g0, NumRxBufs, f) == (RxRing(), done, false)
        invariant LostRxBufCount == lost0
        invariant Filled(len, before, done, vals)
      {
        Ring.ClaimNext(g0, NumRxBufs, f, RxRing(), done);
        var claimed := UnpackInto(dg, f, before, done, vals);
        if !claimed {
          break;
        }
        done := done + [RxWriteCounter];
        f := f + 1;
      }
      UnpackedFrom(dg, g0, lost0, before, done, vals);
    }

    /** Buffer done[i] starts with the len values vals[i], and every buffer
        not in done holds what it held in before. */
    ghost predicate Filled(len: nat, before: seq<seq<int>>, done: seq<nat>, vals: seq<seq<int>>)
      requires Shape() && |before| == NumRxBufs
      reads RxBufs()
    {
      && len <= RxBufSize && |done| <= |vals|
      && (forall i :: 0 <= i < |done| ==> done[i] < NumRxBufs && RxIQBuf[done[i]][..len] == vals[i])
      && (forall j :: 0 <= j < NumRxBufs && j !in done ==> RxIQBuf[j][..] == before[j])
    }

    /** The facts the loop of UnpackFrames gathers, summed up as Unpacked. */
    lemma UnpackedFrom(dg: seq<Byte>, g0: Ring.Ring, lost0: nat, before: seq<seq<int>>,
                       done: seq<nat>, vals: seq<seq<int>>)
      requires Valid() && Ring.Valid(g0, NumRxBufs) && |dg| >= Receive.DatagramSize
      requires |before| == NumRxBufs && |vals| == 2
      requires var run := Ring.ClaimUpTo(g0, NumRxBufs, 2);
               && RxRing() == run.0 && done == run.1
               && LostRxBufCount == lost0 + (if run.2 then 1 else 0)
      requires forall i :: 0 <= i < 2 ==> Receive.LaidOut(config, dg, Receive.SampleStart[i], vals[i])
      requires Filled(Receive.FrameValues(config.NumReceivers), before, done, vals)
      ensures Unpacked(dg, g0, lost0, before)
    {
      var len := Receive.FrameValues(config.NumReceivers);
      forall i | 0 <= i < |done|
        ensures done[i] < NumRxBufs && Receive.LaidOut(config, dg, Receive.SampleStart[i], RxIQBuf[done[i]][..len])
      {
        assert RxIQBuf[done[i]][..len] == vals[i];
      }
    }

    /** One pass of that loop: claim the next receive buffer and unpack USB
        frame f, whose values are vals[f], into it, or count a lost buffer
        when none is free.  The buffers filled so far, done, are kept. */
    method UnpackInto(dg: seq<Byte>, f: nat, ghost before: seq<seq<int>>, ghost done: seq<nat>,
                      ghost vals: seq<seq<int>>) returns (claimed: bool)
      requires Valid() && |dg| >= Receive.DatagramSize && f < 2 && |done| == f && |vals| == 2
      requires |before| == NumRxBufs && Receive.LaidOut(config, dg, Receive.SampleStart[f], vals[f])
      requires Filled(Receive.FrameValues(config.NumReceivers), before, done, vals)
      requires Ring.Claim(RxRing(), NumRxBufs).Some? ==> Ring.Claim(RxRing(), NumRxBufs).value.w !in done
      modifies this`RxWriteCounter, this`LostRxBufCount, RxBufs()
      ensures Valid()
      ensures claimed <==> Ring.Claim(old(RxRing()), NumRxBufs).Some?
      ensures !claimed ==>
                && RxRing() == old(RxRing()) && LostRxBufCount == old(LostRxBufCount) + 1
                && Filled(Receive.FrameValues(config.NumReceivers), before, done, vals)
      ensures claimed ==>
                && RxRing() == Ring.Claim(old(RxRing()), NumRxBufs).value
                && LostRxBufCount == old(LostRxBufCount)
                && Filled(Receive.FrameValues(config.NumReceivers), before, done + [RxWriteCounter], vals)
    {
      var b := GetNextRxBuf();
      if b == null {
        return false;
      }
      UnpackSubFrame(config, dg, Receive.SampleStart[f], b, vals[f]);
      return true;
    }

    /** Unpacks the USB frame whose samples start at byte `at` of the
        datagram into buf: row by row, receiver by receiver, I then Q,
        skipping the two microphone bytes that end each row. */
    static method UnpackSubFrame(c: Config, dg: seq<Byte>, at: nat, buf: array<int>, ghost s: seq<int>)
      requires Receive.LaidOut(c, dg, at, s)
      requires buf.Length >= |s|
      modifies buf
      ensures buf[..|s|] == s
    {
      var n := c.NumReceivers;
      Receive.FrameFits(n);
      var outindex := 0;
      var inindex := at;
      var row := 0;
      while row < Receive.Rows(n)
        invariant 0 <= row <= Receive.Rows(n)
        invariant outindex == Receive.ValueStart(n, row) && inindex == at + Receive.RowStart(n, row)
        invariant outindex <= |s|
        invariant forall j :: 0 <= j < outindex ==> buf[j] == s[j]
      {
        Receive.RowValues(c, dg, at, s, row, inindex, outindex);
        UnpackRow(c, dg, inindex, outindex, buf, s);
        outindex := outindex + 2 * n;
        inindex := inindex + 6 * n + 2;
        row := row + 1;
      }
      assert buf[..outindex] == s;
    }

    /** One row of a USB frame whose samples start at byte inindex: the I
        and Q samples of each receiver, stored from outindex on, where s,
        the whole frame's values, expects them. */
    static method UnpackRow(c: Config, dg: seq<Byte>, inindex: nat, outindex: nat, buf: array<int>,
                            ghost s: seq<int>)
      requires 1 <= c.NumReceivers && inindex + 6 * c.NumReceivers <= |dg|
      requires outindex + 2 * c.NumReceivers <= buf.Length && outindex + 2 * c.NumReceivers <= |s|
      requires forall r :: 0 <= r < c.NumReceivers ==>
                 Receive.PairAt(c, dg, s, outindex + 2 * r, inindex + 6 * r)
      requires forall j :: 0 <= j < outindex ==> buf[j] == s[j]
      modifies buf
      ensures forall j :: 0 <= j < outindex + 2 * c.NumReceivers ==> buf[j] == s[j]
    {
      var n := c.NumReceivers;
      var out := outindex;
      var i := inindex;
      var receiver := 0;
      while receiver < n
        invariant 0 <= receiver <= n
        invariant out == outindex + 2 * receiver && i == inindex + 6 * receiver
        invariant forall j :: 0 <= j < out ==> buf[j] == s[j]
      {
        assert Receive.PairAt(c, dg, s, out, i);
        buf[out] := Receive.Sample(c, dg, i);
        i := i + 3;
        buf[out + 1] := Receive.Sample(c, dg, i);
        i := i + 3;
        out := out + 2;
        receiver := receiver + 1;
      }
    }

    // ------------------------------------------------------------ start-up

    /** UpdateHermes: sends banks 0, 2, 0, 4, 0, 6 as control-only frames
        from one zeroed scratch buffer, then leaves a bank-0 control-only
        frame in transmit slot 0. */
    method UpdateHermes()
      requires Valid()
      modifies this`sent, TxBuf[0]
      ensures Valid() && config == old(config) && Reset() == old(Reset())
      ensures sent == old(sent) + Control.StartupSequence(config)
      ensures TxBuf[0][..512] == Control.ControlOnly(config, 0)
      ensures TxBuf[0][512..] == old(TxBuf[0][512..])
    {
      var buffer := new Byte[512](_ => 0x00);
      SendStartup(buffer);
      ControlOnlyFrame(0, buffer);
      CopyFrame(buffer, TxBuf[0]);
    }

    /** The six metis_write calls of UpdateHermes, in the pairs that make up
        one Ethernet packet each. */
    method SendStartup(buffer: array<Byte>)
      requires WellFormed(config)
      requires buffer.Length == 512 && forall k :: 8 <= k < 512 ==> buffer[k] == 0x00
      modifies this`sent, buffer
      ensures sent == old(sent) + Control.StartupSequence(config)
      ensures forall k :: 8 <= k < 512 ==> buffer[k] == 0x00
    {
      SendPair(2, buffer);
      SendPair(4, buffer);
      SendPair(6, buffer);
      Control.StartupPairs(config);
    }

    /** Bank 0 and then bank b: one Ethernet packet of UpdateHermes. */
    method SendPair(b: nat, buffer: array<Byte>)
      requires WellFormed(config) && b <= 22 && b % 2 == 0
      requires buffer.Length == 512 && forall k :: 8 <= k < 512 ==> buffer[k] == 0x00
      modifies this`sent, buffer
      ensures sent == old(sent) + [Control.ControlOnly(config, 0), Control.ControlOnly(config, b)]
      ensures forall k :: 8 <= k < 512 ==> buffer[k] == 0x00
    {
      SendBank(0, buffer);
      SendBank(b, buffer);
    }

    /** Copies the 512 bytes of frame into the start of slot. */
    static method CopyFrame(frame: array<Byte>, slot: array<Byte>)
      requires frame.Length == 512 <= slot.Length && frame != slot
      modifies slot
      ensures slot[..512] == frame[..] && slot[512..] == old(slot[512..])
    {
      for i := 0 to 512
        invariant forall k :: 0 <= k < slot.Length ==> slot[k] == if k < i then frame[k] else old(slot[k])
      {
        slot[i] := frame[i];
      }
    }

    /** One of UpdateHermes' writes: the control-only frame of bank goes
        out through metis_write. */
    method SendBank(bank: nat, buffer: array<Byte>)
      requires WellFormed(config) && bank <= 22 && bank % 2 == 0
      requires buffer.Length == 512 && forall k :: 8 <= k < 512 ==> buffer[k] == 0x00
      modifies this`sent, buffer
      ensures sent == old(sent) + [Control.ControlOnly(config, bank)]
      ensures forall k :: 8 <= k < 512 ==> buffer[k] == 0x00
    {
      ControlOnlyFrame(bank, buffer);
      sent := sent + [buffer[..]];
    }

    /** BuildControlRegs(bank) over a buffer whose sample bytes are zero. */
    method ControlOnlyFrame(bank: nat, buffer: array<Byte>)
      requires WellFormed(config) && bank <= 22 && bank % 2 == 0
      requires buffer.Length == 512 && forall k :: 8 <= k < 512 ==> buffer[k] == 0x00
      modifies buffer
      ensures buffer[..] == Control.ControlOnly(config, bank)
      ensures forall k :: 8 <= k < 512 ==> buffer[k] == 0x00
    {
      BuildControlRegs(bank, buffer);
      Control.KnownBanks(config, bank, old(buffer[4..8]));
      Control.KnownBankOverwrites(config, bank, old(buffer[4..8]));
      assert buffer[..] == buffer[..8] + buffer[8..];
    }

    /** Start: transmission allowed again, behind a fresh hold-off. */
    method Start()
      requires Valid()
      modifies this`TxStop, this`TxHoldOff
      ensures Valid()
      ensures TxState() == old(TxState()).(stop := false, holdOff := true)
    {
      TxStop := false;
      TxHoldOff := true;
    }

    /** Stop: no transmit frame is sent until the next Start. */
    method Stop()
      requires Valid()
      modifies this`TxStop
      ensures Valid()
      ensures TxState() == old(TxState()).(stop := true)
    {
      TxStop := true;
    }
  }
}
