/**
 * The configuration and status fields of HermesProxy that the frame codec
 * reads and writes.  The configuration is set by the constructor and by the
 * hermesNB setters; the status is decoded from the control bytes that
 * Hermes sends back.
 */
module HermesConfig {
  import opened Bits

  /** PTTMode: transmitter keyed off, keyed by transmit audio (Vox), or on. */
  datatype PttMode = PTTOff | PTTVox | PTTOn

  datatype Config = Config(
    RxSampleRate: int,
    NumReceivers: int,
    ClockSource: Byte,
    AlexRxAnt: int,
    AlexTxAnt: int,
    AlexRxHPF: int,
    AlexTxLPF: int,
    /** Receive0Frequency .. Receive7Frequency */
    ReceiveFrequency: seq<bv32>,
    TransmitFrequency: bv32,
    TxDrive: Byte,
    PTTMode: PttMode,
    RxPreamp: bool,
    PTTOffMutesTx: bool,
    PTTOnMutesRx: bool,
    ADCdither: bool,
    ADCrandom: bool,
    RxAtten: Byte,
    Duplex: bool)

  /** There is one tuning word per receiver slot. */
  predicate WellFormed(c: Config)
  {
    |c.ReceiveFrequency| == 8
  }

  /** The hardware status kept from the control bytes of received frames. */
  datatype Status = Status(
    ADCoverload: bool,
    HermesVersion: Byte,
    AIN1: nat, AIN2: nat, AIN3: nat, AIN4: nat, AIN5: nat, AIN6: nat)

  /** `ClockSource = (cs & 0xFC)`: the parsed clock-source word with its two
      low bits, where BuildControlRegs puts the rate code, cleared. */
  function ClockSourceOf(cs: bv32): (b: Byte)
    ensures b as bv32 == cs & 0xFC && b & 0x03 == 0x00
  {
    (cs & 0xFC) as bv8
  }

  /** PTTOnMutesRx with PTT on: received samples are replaced by zero. */
  predicate RxMuted(c: Config)
  {
    c.PTTOnMutesRx && c.PTTMode == PTTOn
  }

  /** PTTOffMutesTx with PTT off: the drive level and the transmitted IQ
      samples are replaced by zero. */
  predicate TxMuted(c: Config)
  {
    c.PTTOffMutesTx && c.PTTMode == PTTOff
  }
}
