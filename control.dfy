/**
 * The five-byte control block (C0 .. C4) that BuildControlRegs writes after
 * the 7F 7F 7F sync of every USB frame sent to Hermes.  C0 selects a
 * register bank (an even number, 0 .. 22) and carries the MOX bit; C1 .. C4
 * hold that bank's settings, taken from the configuration.
 */
module Control {
  import opened Bits
  import opened HermesConfig
  import opened Wrappers
  import Schedule

  /** Sync bytes and C0: the bank number, with the MOX bit set while PTT is on. */
  function Header(c: Config, regNum: nat): (h: seq<Byte>)
    ensures |h| == 4
  {
    var c0 := LowByte(regNum);
    [0x7F, 0x7F, 0x7F, if c.PTTMode == PTTOn then c0 | 0x01 else c0]
  }

  /** C1 rate bits: 48k, 96k, 192k, 384k --> 0, 1, 2, 3; any other rate 0. */
  function RateCode(rate: int): Byte
  {
    if rate == 384000 then 0x03
    else if rate == 192000 then 0x02
    else if rate == 96000 then 0x01
    else 0x00
  }

  /** C3 receive controls: preamp 0x04, ADC dither 0x08, ADC random 0x10. */
  function RxControl(c: Config): Byte
  {
    (if c.RxPreamp then 0x04 else 0x00)
    | (if c.ADCdither then 0x08 else 0x00)
    | (if c.ADCrandom then 0x10 else 0x00)
  }

  /** C4 of bank 0 before the antenna bits: `((N - 1) << 3) & 0x38`, duplex
      0x04.  Dafny's `%` is Euclidean, which is what the mask does to a
      negative N - 1 as well. */
  function ReceiverControl(c: Config): Byte
  {
    ByteOf(((c.NumReceivers - 1) % 8) * 8);
    (((c.NumReceivers - 1) % 8) * 8) as bv8 | (if c.Duplex then 0x04 else 0x00)
  }

  /** The high-pass filter the Alex board gets when AlexRxHPF is 0: chosen
      from Receive0Frequency. */
  function AutoHPF(f: nat): Byte
  {
    if f < 1500000 then 0x20
    else if f < 6500000 then 0x10
    else if f < 9500000 then 0x08
    else if f < 13000000 then 0x04
    else if f < 20000000 then 0x01
    else if f < 50000000 then 0x02
    else 0x40
  }

  /** The low-pass filter when AlexTxLPF is 0: chosen from TransmitFrequency. */
  function AutoLPF(f: nat): Byte
  {
    if f > 30000000 then 0x10
    else if f > 19000000 then 0x20
    else if f > 14900000 then 0x40
    else if f > 9900000 then 0x01
    else if f > 4900000 then 0x02
    else if f > 3400000 then 0x04
    else 0x08
  }

  function RxHPF(c: Config): Byte
    requires WellFormed(c)
  {
    if c.AlexRxHPF == 0 then AutoHPF(c.ReceiveFrequency[0] as nat) else LowByte(c.AlexRxHPF)
  }

  function TxLPF(c: Config): Byte
  {
    if c.AlexTxLPF == 0 then AutoLPF(c.TransmitFrequency as nat) else LowByte(c.AlexTxLPF)
  }

  /** C1 .. C4 of bank regNum, or None for a bank BuildControlRegs does not
      know (it then leaves those four bytes as they were). */
  function Payload(c: Config, regNum: nat): (p: Option<seq<Byte>>)
    requires WellFormed(c)
    ensures p.Some? ==> |p.value| == 4
  {
    if regNum == 0 then
      Some([c.ClockSource | RateCode(c.RxSampleRate), 0x00,
            RxControl(c) | LowByte(c.AlexRxAnt),
            ReceiverControl(c) | LowByte(c.AlexTxAnt) | 0x80])
    else if regNum == 2 then Some(BE32Bytes(c.TransmitFrequency))
    else if 4 <= regNum <= 16 && regNum % 2 == 0 then
      Some(BE32Bytes(c.ReceiveFrequency[(regNum - 4) / 2]))
    else if regNum == 18 then
      Some([if TxMuted(c) then 0x00 else c.TxDrive, 0x40, RxHPF(c) & 0x7F, TxLPF(c) & 0x7F])
    else if regNum == 20 then Some([0x00, 0x17, 0x00, c.RxAtten])
    else if regNum == 22 then Some([0x00, 0x00, 0x00, 0x00])
    else None
  }

  /** Bytes 0 .. 7 of a frame after BuildControlRegs(regNum), where prev are
      the bytes 4 .. 7 the frame held before. */
  function ControlFrame(c: Config, regNum: nat, prev: seq<Byte>): (f: seq<Byte>)
    requires WellFormed(c) && |prev| == 4
    ensures |f| == 8 && f[..4] == Header(c, regNum)
  {
    var p := Payload(c, regNum);
    Header(c, regNum) + (if p.Some? then p.value else prev)
  }

  // --------------------------------------------------------------- C0

  /** A receiver of the frame reads the bank back from C0 & 0xFE and the MOX
      state from C0 & 0x01. */
  lemma HeaderDecodes(c: Config, regNum: nat, prev: seq<Byte>)
    requires WellFormed(c) && |prev| == 4 && regNum < 256 && regNum % 2 == 0
    ensures var f := ControlFrame(c, regNum, prev);
            && f[0] == 0x7F && f[1] == 0x7F && f[2] == 0x7F
            && (f[3] & 0xFE) as int == regNum
            && (f[3] & 0x01 == 0x01 <==> c.PTTMode == PTTOn)
  {
    var b := LowByte(regNum);
    EvenByte(b);
    assert ControlFrame(c, regNum, prev)[3] == Header(c, regNum)[3];
  }

  lemma EvenByte(b: Byte)
    requires (b as int) % 2 == 0
    ensures b & 0x01 == 0x00 && (b & 0xFE) as int == b as int
    ensures (b | 0x01) & 0x01 == 0x01 && ((b | 0x01) & 0xFE) as int == b as int
  {
  }

  /** The banks BuildControlRegs knows are exactly 0, 2, ..., 22; for any
      other number bytes 4 .. 7 keep what they held. */
  lemma KnownBanks(c: Config, regNum: nat, prev: seq<Byte>)
    requires WellFormed(c) && |prev| == 4
    ensures Payload(c, regNum).Some? <==> regNum <= 22 && regNum % 2 == 0
    ensures Payload(c, regNum).None? ==> ControlFrame(c, regNum, prev)[4..] == prev
  {
  }

  // --------------------------------------------------------------- bank 0

  /** Bank 0, C1: with the two low bits of ClockSource clear (as the
      constructor and set_ClockSource leave them), C1 holds the clock source
      in its upper six bits and the receive rate in its lower two, from which
      the rate reads back as 48 kHz times 2^code. */
  lemma SpeedDecodes(c: Config, prev: seq<Byte>)
    requires WellFormed(c) && |prev| == 4 && c.ClockSource & 0x03 == 0x00
    requires Schedule.ListedRate(c.RxSampleRate)
    ensures var f := ControlFrame(c, 0, prev);
            && f[4] & 0xFC == c.ClockSource
            && c.RxSampleRate == 48000 * Pow2((f[4] & 0x03) as nat)
  {
    var code := RateCode(c.RxSampleRate);
    var f := ControlFrame(c, 0, prev);
    assert f[4] == c.ClockSource | code;
    ClockBits(c.ClockSource, code);
    var k := (code & 0x03) as nat;
    assert k == code as nat;
    assert c.RxSampleRate == 48000 * Pow2(k) by {
      assert Pow2(0) == 1 && Pow2(1) == 2 && Pow2(2) == 4 && Pow2(3) == 8;
    }
  }

  lemma ClockBits(clock: Byte, code: Byte)
    requires clock & 0x03 == 0x00 && code < 4
    ensures (clock | code) & 0xFC == clock && (clock | code) & 0x03 == code
  {
  }

  /** Bank 0, C3: with the Rx antenna in its two low bits, preamp, dither and
      random read back from bits 2, 3 and 4. */
  lemma RxControlDecodes(c: Config, prev: seq<Byte>)
    requires WellFormed(c) && |prev| == 4 && LowByte(c.AlexRxAnt) & 0x1C == 0x00
    ensures var f := ControlFrame(c, 0, prev);
            && (f[6] & 0x04 != 0x00 <==> c.RxPreamp)
            && (f[6] & 0x08 != 0x00 <==> c.ADCdither)
            && (f[6] & 0x10 != 0x00 <==> c.ADCrandom)
  {
    RxBits(c.RxPreamp, c.ADCdither, c.ADCrandom, LowByte(c.AlexRxAnt));
  }

  lemma RxBits(p: bool, d: bool, r: bool, ant: Byte)
    requires ant & 0x1C == 0x00
    ensures var b := (if p then 0x04 else 0x00) | (if d then 0x08 else 0x00)
                     | (if r then 0x10 else 0x00) | ant;
            && (b & 0x04 != 0x00 <==> p)
            && (b & 0x08 != 0x00 <==> d)
            && (b & 0x10 != 0x00 <==> r)
  {
  }

  /** Bank 0, C4: the common-frequency bit 0x80 is always set; with the Tx
      antenna in its two low bits, bits 3 .. 5 carry N - 1 (modulo 8) and
      bit 2 the duplex flag. */
  lemma ReceiverControlDecodes(c: Config, prev: seq<Byte>)
    requires WellFormed(c) && |prev| == 4
    ensures ControlFrame(c, 0, prev)[7] & 0x80 == 0x80
    ensures LowByte(c.AlexTxAnt) & 0x3C == 0x00 ==>
              var f := ControlFrame(c, 0, prev);
              && ((f[7] >> 3) & 0x07) as int == (c.NumReceivers - 1) % 8
              && (f[7] & 0x04 != 0x00 <==> c.Duplex)
  {
    var k := (c.NumReceivers - 1) % 8;
    ByteOf(k * 8);
    ByteOf(k);
    ReceiverBits(k as bv8, c.Duplex, LowByte(c.AlexTxAnt));
  }

  lemma ReceiverBits(k: bv8, duplex: bool, ant: Byte)
    requires k < 8
    ensures var b := ((k as int * 8) as bv8 | (if duplex then 0x04 else 0x00)) | ant | 0x80;
            && b & 0x80 == 0x80
            && (ant & 0x3C == 0x00 ==> (b >> 3) & 0x07 == k && (b & 0x04 != 0x00 <==> duplex))
  {
    assert (k as int * 8) as bv8 == k << 3 by {
      ShiftIsTimes8(k);
    }
  }

  lemma ShiftIsTimes8(k: bv8)
    requires k < 8
    ensures (k as int * 8) as bv8 == k << 3
  {
  }

  // ----------------------------------------------------- tuning words

  /** Bank 2 carries TransmitFrequency big-endian in C1 .. C4. */
  lemma TransmitFrequencyDecodes(c: Config, prev: seq<Byte>)
    requires WellFormed(c) && |prev| == 4
    ensures var f := ControlFrame(c, 2, prev);
            BE32(f[4], f[5], f[6], f[7]) == c.TransmitFrequency
  {
    BE32RoundTrip(c.TransmitFrequency);
  }

  /** Bank 4 + 2k carries Receive{k}Frequency, k = 0 .. 6; no bank carries
      the eighth word. */
  lemma ReceiveFrequencyDecodes(c: Config, k: nat, prev: seq<Byte>)
    requires WellFormed(c) && |prev| == 4 && k < 7
    ensures var f := ControlFrame(c, 4 + 2 * k, prev);
            BE32(f[4], f[5], f[6], f[7]) == c.ReceiveFrequency[k]
  {
    assert (4 + 2 * k - 4) / 2 == k;
    BE32RoundTrip(c.ReceiveFrequency[k]);
  }

  // --------------------------------------------------- bank 18, filters

  /** Bank 18: drive level (zero while PTT-off muting applies), the manual
      filter-control flag 0x40, and the filter selections with bit 7 clear. */
  lemma DriveAndFilters(c: Config, prev: seq<Byte>)
    requires WellFormed(c) && |prev| == 4
    ensures var f := ControlFrame(c, 18, prev);
            && f[4] == (if TxMuted(c) then 0x00 else c.TxDrive)
            && f[5] == 0x40
            && f[6] & 0x80 == 0x00 && f[7] & 0x80 == 0x00
            && (c.AlexRxHPF == 0 ==> f[6] == AutoHPF(c.ReceiveFrequency[0] as nat))
            && (c.AlexTxLPF == 0 ==> f[7] == AutoLPF(c.TransmitFrequency as nat))
  {
    var f := ControlFrame(c, 18, prev);
    assert f[4..] == Payload(c, 18).value;
    LowSeven(RxHPF(c));
    LowSeven(TxLPF(c));
    if c.AlexRxHPF == 0 {
      AutoHPFLow(c.ReceiveFrequency[0] as nat);
    }
    if c.AlexTxLPF == 0 {
      AutoLPFLow(c.TransmitFrequency as nat);
    }
  }

  /** Masking with 0x7F clears bit 7 and keeps a byte whose bit 7 is clear. */
  lemma LowSeven(b: Byte)
    ensures (b & 0x7F) & 0x80 == 0x00
    ensures b & 0x80 == 0x00 ==> b & 0x7F == b
  {
  }

  lemma AutoHPFLow(f: nat)
    ensures AutoHPF(f) & 0x80 == 0x00
  {
  }

  lemma AutoLPFLow(f: nat)
    ensures AutoLPF(f) & 0x80 == 0x00
  {
  }

  /** The Alex high-pass filters by selection bit, from "bypass" up to the
      6 m band-pass, and the frequencies at which their bands start. */
  const HPFCodes: seq<Byte> := [0x20, 0x10, 0x08, 0x04, 0x01, 0x02, 0x40]
  const HPFCutoffs: seq<nat> := [0, 1500000, 6500000, 9500000, 13000000, 20000000, 50000000]

  /** The Alex low-pass filters by selection bit, from 160 m up to 6 m, and
      the frequencies above which each is the one used; the 160 m filter
      takes everything up to 3.4 MHz. */
  const LPFCodes: seq<Byte> := [0x08, 0x04, 0x02, 0x01, 0x40, 0x20, 0x10]
  const LPFFloors: seq<nat> := [0, 3400000, 4900000, 9900000, 14900000, 19000000, 30000000]

  predicate Ascending(t: seq<nat>)
  {
    forall i :: 0 < i < |t| ==> t[i - 1] < t[i]
  }

  /** The band of an ascending list of band starts that holds f: the last
      start at most f. */
  function BandAtMost(t: seq<nat>, f: nat): (j: nat)
    requires |t| > 0 && t[0] <= f
    decreases |t|
  {
    if |t| == 1 || f < t[1] then 0 else 1 + BandAtMost(t[1..], f)
  }

  /** The same with strict floors: the last floor below f, or the first band
      when f is not above the second floor. */
  function BandBelow(t: seq<nat>, f: nat): (j: nat)
    requires |t| > 0
    decreases |t|
  {
    if |t| == 1 || f <= t[1] then 0 else 1 + BandBelow(t[1..], f)
  }

  lemma {:induction false} BandAtMostSpec(t: seq<nat>, f: nat)
    requires |t| > 0 && t[0] <= f && Ascending(t)
    ensures var j := BandAtMost(t, f);
            j < |t| && t[j] <= f && (j + 1 < |t| ==> f < t[j + 1])
    decreases |t|
  {
    if |t| > 1 && t[1] <= f {
      assert Ascending(t[1..]) by {
        forall i | 0 < i < |t| - 1 ensures t[1..][i - 1] < t[1..][i] {
          assert t[i] < t[i + 1];
        }
      }
      BandAtMostSpec(t[1..], f);
    }
  }

  lemma {:induction false} BandBelowSpec(t: seq<nat>, f: nat)
    requires |t| > 0 && Ascending(t)
    ensures var j := BandBelow(t, f);
            j < |t| && (j > 0 ==> t[j] < f) && (j + 1 < |t| ==> f <= t[j + 1])
    decreases |t|
  {
    if |t| > 1 && t[1] < f {
      assert Ascending(t[1..]) by {
        forall i | 0 < i < |t| - 1 ensures t[1..][i - 1] < t[1..][i] {
          assert t[i] < t[i + 1];
        }
      }
      BandBelowSpec(t[1..], f);
    }
  }

  /** The automatic high-pass choice is the filter of the band f lies in:
      the one with the highest start not above f. */
  lemma AutoHPFIsBand(f: nat)
    ensures var j := BandAtMost(HPFCutoffs, f);
            && AutoHPF(f) == HPFCodes[j]
            && HPFCutoffs[j] <= f && (j + 1 < |HPFCutoffs| ==> f < HPFCutoffs[j + 1])
  {
    var t := HPFCutoffs;
    assert t[1..][1..][1..][1..][1..][1..] == [50000000];
    BandAtMostSpec(t, f);
  }

  /** The automatic low-pass choice is the filter of the band f lies in:
      the one with the highest floor below f. */
  lemma AutoLPFIsBand(f: nat)
    ensures var j := BandBelow(LPFFloors, f);
            && AutoLPF(f) == LPFCodes[j]
            && (j > 0 ==> LPFFloors[j] < f) && (j + 1 < |LPFFloors| ==> f <= LPFFloors[j + 1])
  {
    var t := LPFFloors;
    assert t[1..][1..][1..][1..][1..][1..] == [30000000];
    BandBelowSpec(t, f);
  }

  // --------------------------------------------------- banks 20 and 22

  /** Bank 20 carries the attenuator in C4; bank 22 is all zeros. */
  lemma AttenuatorAndZeroBank(c: Config, prev: seq<Byte>)
    requires WellFormed(c) && |prev| == 4
    ensures ControlFrame(c, 20, prev)[4..] == [0x00, 0x17, 0x00, c.RxAtten]
    ensures ControlFrame(c, 22, prev)[4..] == [0x00, 0x00, 0x00, 0x00]
  {
  }

  // ------------------------------------------------------ start-up frames

  /** The banks UpdateHermes sends before the stream starts, in order: the
      general settings between each of the tuning banks 2, 4 and 6. */
  const StartupBanks: seq<nat> := [0, 2, 0, 4, 0, 6]

  /** A 512-byte USB frame with the control block of bank regNum and zero
      in every other byte. */
  function ControlOnly(c: Config, regNum: nat): (f: seq<Byte>)
    requires WellFormed(c)
    ensures |f| == 512
  {
    ControlFrame(c, regNum, [0x00, 0x00, 0x00, 0x00]) + NoSamples()
  }

  /** The 504 bytes after the control block of a frame without samples. */
  function NoSamples(): (z: seq<Byte>)
    ensures |z| == 504
  {
    seq(504, _ => 0x00)
  }

  /** A known bank writes all of C1 .. C4, so what bytes 4 .. 7 held before
      does not show. */
  lemma KnownBankOverwrites(c: Config, regNum: nat, prev: seq<Byte>)
    requires WellFormed(c) && |prev| == 4 && Payload(c, regNum).Some?
    ensures ControlFrame(c, regNum, prev) == ControlFrame(c, regNum, [0x00, 0x00, 0x00, 0x00])
  {
  }

  /** What UpdateHermes sends: one control-only frame per start-up bank. */
  function StartupSequence(c: Config): (fs: seq<seq<Byte>>)
    requires WellFormed(c)
    ensures |fs| == |StartupBanks|
  {
    [ControlOnly(c, 0), ControlOnly(c, 2), ControlOnly(c, 0), ControlOnly(c, 4), ControlOnly(c, 0), ControlOnly(c, 6)]
  }

  /** The start-up sequence is three pairs, bank 0 then bank 2, 4 or 6. */
  lemma StartupPairs(c: Config)
    requires WellFormed(c)
    ensures StartupSequence(c) == [ControlOnly(c, 0), ControlOnly(c, 2)] + [ControlOnly(c, 0), ControlOnly(c, 4)]
                                  + [ControlOnly(c, 0), ControlOnly(c, 6)]
  {
  }

  /** A control-only frame of an even bank below 256 starts with the sync
      bytes, names its bank in C0 and carries no samples. */
  lemma ControlOnlyFrame(c: Config, regNum: nat)
    requires WellFormed(c) && regNum < 256 && regNum % 2 == 0
    ensures var f := ControlOnly(c, regNum);
            && f[0] == 0x7F && f[1] == 0x7F && f[2] == 0x7F
            && (f[3] & 0xFE) as int == regNum
            && (forall k :: 8 <= k < 512 ==> f[k] == 0x00)
  {
    HeaderDecodes(c, regNum, [0x00, 0x00, 0x00, 0x00]);
  }

  /** Frame i of the start-up sequence is the control-only frame of bank
      StartupBanks[i]. */
  lemma StartupSequenceIsBanks(c: Config)
    requires WellFormed(c)
    ensures forall i :: 0 <= i < |StartupBanks| ==> StartupSequence(c)[i] == ControlOnly(c, StartupBanks[i])
  {
  }

  /** Every start-up frame is a well-formed control-only frame addressing
      its bank: sync bytes, then C0 naming the bank, and no samples. */
  lemma StartupFrames(c: Config)
    requires WellFormed(c)
    ensures var fs := StartupSequence(c);
            forall i :: 0 <= i < |fs| ==>
              && fs[i][0] == 0x7F && fs[i][1] == 0x7F && fs[i][2] == 0x7F
              && (fs[i][3] & 0xFE) as int == StartupBanks[i]
              && (forall k :: 8 <= k < 512 ==> fs[i][k] == 0x00)
  {
    StartupSequenceIsBanks(c);
    forall i | 0 <= i < |StartupBanks|
      ensures var f := ControlOnly(c, StartupBanks[i]);
              && f[0] == 0x7F && f[1] == 0x7F && f[2] == 0x7F
              && (f[3] & 0xFE) as int == StartupBanks[i]
              && (forall k :: 8 <= k < 512 ==> f[k] == 0x00)
    {
      ControlOnlyFrame(c, StartupBanks[i]);
    }
  }

  /** The order of the start-up frames, read back from their C0 bytes: every
      even-numbered frame carries the general settings (bank 0), so each
      tuning frame follows a bank-0 frame; frame i at an odd position
      addresses bank i + 1, so banks 2, 4 and 6 come in that order; and no
      bank other than 0 is sent twice. */
  lemma StartupOrder(c: Config)
    requires WellFormed(c)
    ensures var fs := StartupSequence(c);
            && (forall i :: 0 <= i < |fs| && i % 2 == 0 ==> fs[i][3] & 0xFE == 0)
            && (forall i :: 0 <= i < |fs| && i % 2 == 1 ==> (fs[i][3] & 0xFE) as int == i + 1)
            && (forall i, j :: 0 <= i < j < |fs| && fs[i][3] & 0xFE != 0 ==> fs[i][3] & 0xFE != fs[j][3] & 0xFE)
  {
    StartupFrames(c);
  }

  /** Before the stream starts the radio has the transmit frequency and the
      first two receive frequencies, from frames 1, 3 and 5. */
  lemma StartupTuning(c: Config)
    requires WellFormed(c)
    ensures var f := StartupSequence(c)[1]; BE32(f[4], f[5], f[6], f[7]) == c.TransmitFrequency
    ensures var f := StartupSequence(c)[3]; BE32(f[4], f[5], f[6], f[7]) == c.ReceiveFrequency[0]
    ensures var f := StartupSequence(c)[5]; BE32(f[4], f[5], f[6], f[7]) == c.ReceiveFrequency[1]
  {
    var z := [0x00, 0x00, 0x00, 0x00];
    TransmitFrequencyDecodes(c, z);
    ReceiveFrequencyDecodes(c, 0, z);
    ReceiveFrequencyDecodes(c, 1, z);
  }
}
