# HermesProxy in Dafny

HermesProxy sits between GNU Radio and a Hermes (HPSDR) transceiver. It
uses the HPSDR "USB over Ethernet" protocol: every datagram holds an 8-byte Ethernet header and
two 512-byte USB frames. Each USB frame holds three sync bytes `7F 7F 7F`,
five control bytes C0 .. C4, and 504 bytes of sample rows.

This project models the proxy and the hermesNB block that drives it:

- **Receive decode.** `ReceiveRxIQ` tracks the 32-bit sequence number of
  every received datagram and counts the datagram. It then lets the
  transmit scheduler run, checks the sync of both USB frames and decodes
  their status banks. Last, it unpacks the rows of 24-bit I/Q samples of
  each frame into a freshly claimed receive buffer. `Unpack2C` does the
  two's-complement conversion.
- **Two single-producer, single-consumer rings.** These are the receive
  buffer pool and the transmit slot pool. Their indices are masked with
  `& (N - 1)` for a power-of-two pool size N.
- **The transmit scheduler `ScheduleTxFrame`.** From the count of received
  datagrams it decides whether to send a transmit datagram. For one or two
  receivers it uses bit and modulo tests. For three to seven receivers it
  looks the count up in twenty schedule vectors. The code states no bound
  on the distance between two sends. The model proves the exact largest
  distance of each vector, `Schedule.MaxGap`. It also proves a uniform
  bound, s * (ceil(63 / rows) + 1) with s the speed factor 1, 2, 4 or 8:
  one more than the average distance 63 / rows rounded up, in units of s.
- **The control block builder `BuildControlRegs`.** It writes register
  banks 0 .. 22 into bytes 0 .. 7 of a frame. The start-up sequence of
  `UpdateHermes` is built from it.
- **The transmit side.**
  - `PutTxIQ` claims a slot, steps the register-bank cycler and writes a
    control block and 63 rows of zero audio and swapped 16-bit I/Q. It
    also sets MOX in Vox mode.
  - `SendTxIQ` releases the first burst after a hold-off and then sends
    two frames per call.
  - `Start` and `Stop` switch transmission on and off.
- **hermesNB.**
  - `general_work` feeds 63 transmit samples to `PutTxIQ` when it has
    them. It then spreads one receive buffer over the per-receiver output
    streams.
  - `set_ClockSource` stores the clock-source setting.
  - `start` and `stop` delegate to the proxy.

Bytes are `bv8` and tuning words `bv32`. Ring indices and counters are
unbounded `nat`s. Pure decisions are functions with lemmas:

- the schedule;
- the control payload of each bank;
- the frame layout;
- the sequence-number tracking;
- the status decoding;
- the drain state machine.

The proxy itself is a class. Its buffers are `array`s and its methods are
proved against those functions, in the same steps the source takes. What
`metis_write` would send is appended to a ghost log `sent`, one 512-byte
USB frame per call.

The constants NUMRXIQBUFS, NUMTXBUFS, TXINITIALBURST, RXBUFSIZE and TXBUFSIZE
are defined in HermesProxy.h, which is not part of this model. Here they are
constructor parameters: the two pool sizes must be powers of two, and the
buffers must be large enough for one frame.

Modules:

- `Bits`: masks, byte conversions, modular arithmetic.
- `HermesConfig`: the configuration and status fields.
- `Control`: the register banks.
- `Ring`: the rings.
- `TxDrain`: the `SendTxIQ` state machine.
- `Schedule`: the scheduler and its tables.
- `Receive`: sequence numbers, status, sample layout, `Unpack2C`.
- `Transmit`: the bank cycler and the transmit frame.
- `Proxy`: the `HermesProxy` class.
- `HermesNB`: the `hermesNB` block.

## Where the code and its comments or documents disagree

This model follows the code in each case.

- **Vector lengths.** The comments next to `L3_96`, `L3_192` and `L3_384`
  say "25 frames", but each of these vectors has 26 entries. So three
  receivers above 48 kHz send one transmit datagram per cycle more than
  the 25 rows per USB frame call for. `Schedule.RateMatching` and
  `Schedule.Table` state the 26.
- **The receive ring runs one slot behind.** `GetNextRxBuf` advances its
  index before it hands out a buffer (line 639), while `GetRxIQ` hands out
  the buffer at its index and then advances it (lines 659-660). So the
  first buffer `GetRxIQ` returns is `RxIQBuf[0]`, which no claim has
  filled: it is one of the buffers allocated at lines 230-231 and never
  written. From then on each take returns the buffer of the claim before
  the latest one, and the freshest filled buffer is held back until the
  next claim. `Ring.ReaderLagsOne` and `Ring.FifoSlots` state this.
- **Status of a rejected datagram.** When the second USB frame fails its
  sync check, the status already decoded from the first frame is kept.
  `Receive.StatusFrom` models this.
- **Lines 614-615 of `Unpack2C`.** They negate the value twice, so they
  change nothing. The model keeps only the sign-extended integer.

## Model

| member | source | states |
|---|---|---|
| Bits.MaskIsMod | lib/HermesProxy.cc:630-642 | for a power-of-two pool size c, masking with c - 1 is reduction modulo c, which is what the ring index updates rely on |
| Bits.LowByte | lib/HermesProxy.cc:906-910 | storing an int in an unsigned char keeps it modulo 256 |
| Bits.SignedChar | lib/HermesProxy.cc:611 | the signed char of a byte lies in -128 .. 127 and is congruent to the byte modulo 256 |
| Bits.BE32RoundTrip | lib/HermesProxy.cc:959-964 | the four big-endian bytes written for a 32-bit word reassemble to that word |
| HermesConfig.ClockSourceOf | lib/HermesProxy.cc:167-169 | the stored clock source is the parsed word masked with 0xFC, so its two low bits are clear |
| Control.HeaderDecodes | lib/HermesProxy.cc:906-910 | bytes 0 .. 2 are 7F; C0 & 0xFE reads back the bank and C0 & 0x01 is set exactly when PTT is on |
| Control.KnownBanks | lib/HermesProxy.cc:912-1087 | a bank has a payload exactly when it is one of 0, 2, ..., 22; for any other bank bytes 4 .. 7 keep what they held |
| Control.SpeedDecodes | lib/HermesProxy.cc:914-923 | bank 0 C1 carries the clock source in its upper six bits and a rate code in its low two, from which the rate reads back as 48 kHz times 2^code |
| Control.RxControlDecodes | lib/HermesProxy.cc:925-950 | bank 0 C3 carries preamp, dither and random in bits 2, 3 and 4, next to the Rx antenna bits |
| Control.ReceiverControlDecodes | lib/HermesProxy.cc:934-955 | bank 0 C4 always has bit 0x80 set; with the Tx antenna in its low two bits, bits 3 .. 5 hold N - 1 modulo 8 and bit 2 the duplex flag |
| Control.TransmitFrequencyDecodes | lib/HermesProxy.cc:959-964 | bank 2 C1 .. C4 decode big-endian to TransmitFrequency |
| Control.ReceiveFrequencyDecodes | lib/HermesProxy.cc:966-1013 | bank 4 + 2k C1 .. C4 decode big-endian to the frequency of receiver k, for k = 0 .. 6 |
| Control.DriveAndFilters | lib/HermesProxy.cc:1021-1068 | bank 18: drive level, or zero while PTT-off muting applies; 0x40 in C2; both filter bytes with bit 7 clear; the automatic choice whenever the manual selection is 0 |
| Control.BandAtMostSpec | lib/HermesProxy.cc:1029-1045 | the band lookup returns the last band start at most f |
| Control.BandBelowSpec | lib/HermesProxy.cc:1047-1063 | the floor lookup returns the last floor below f |
| Control.AutoHPFIsBand | lib/HermesProxy.cc:1029-1045 | the automatic high-pass choice is the filter of the band that holds Receive0Frequency |
| Control.AutoLPFIsBand | lib/HermesProxy.cc:1047-1063 | the automatic low-pass choice is the filter of the band that holds TransmitFrequency |
| Control.AttenuatorAndZeroBank | lib/HermesProxy.cc:1070-1082 | bank 20 carries 00 17 00 RxAtten and bank 22 four zero bytes |
| Control.KnownBankOverwrites | lib/HermesProxy.cc:912-1082 | a known bank writes all of C1 .. C4, so the previous contents of the buffer do not show |
| Control.ControlOnlyFrame | lib/HermesProxy.cc:860-870 | a control-only frame of an even bank has the sync bytes, names its bank in C0 and is zero from byte 8 on |
| Control.StartupFrames | lib/HermesProxy.cc:870-883 | every start-up frame is well formed, addresses its bank and carries no samples |
| Control.StartupOrder | lib/HermesProxy.cc:870-883 | read back from C0, every even-numbered start-up frame is bank 0, so each tuning frame follows a bank-0 frame; the frame at odd position i is bank i + 1, so banks 2, 4 and 6 come in that order; and no bank other than 0 appears twice |
| Control.StartupTuning | lib/HermesProxy.cc:870-883 | before streaming starts, the radio has received the transmit frequency and the first two receive frequencies |
| TxDrain.WalkSpec | lib/HermesProxy.cc:1264-1268 | n rounds of writing and freeing visit slots r, r + 1, ... modulo c and leave the read index at r + n modulo c |
| TxDrain.StoppedSendsNothing | lib/HermesProxy.cc:1232-1233 | with TxStop set, SendTxIQ changes nothing and sends nothing |
| TxDrain.HoldOffSpec | lib/HermesProxy.cc:1245-1270 | in hold-off the call is counted and nothing is sent until 2 * TXINITIALBURST slots are queued; then exactly those consecutive slots from r are sent and hold-off ends |
| TxDrain.SteadySpec | lib/HermesProxy.cc:1245-1298 | out of hold-off the call is counted; with fewer than two queued slots a lost buffer is counted and nothing is sent, otherwise slots r and r + 1 are sent and r advances by two |
| TxDrain.NeverOvertakes | lib/HermesProxy.cc:1245-1298 | the read index never overtakes the write index: every slot sent was queued, slots go out in ring order, and the queue shrinks by the number sent |
| Ring.AdvanceIsMod | lib/HermesProxy.cc:639 | advancing an index is adding one modulo the pool size |
| Ring.ClaimSpec | lib/HermesProxy.cc:630-642 | a claim is refused exactly when c - 1 slots are queued; otherwise w moves on by one modulo c, r stays, one more slot is queued, and the slot claimed is neither r nor a queued one |
| Ring.TakeSpec | lib/HermesProxy.cc:645-665 | a take is refused exactly when nothing is queued; otherwise it hands out slot r, advances r by one modulo c, and leaves w alone |
| Ring.HistorySpec | lib/HermesProxy.cc:630-665 | after a number of claims and takes, the queue length is their difference, and claims and takes succeed exactly while there is room and content |
| Ring.FifoSlots | lib/HermesProxy.cc:630-665 | after a history of claims and takes the read index is the number of takes modulo c, and no slot written by a claim still queued is that slot, so takes hand slots out in the order claims filled them |
| Ring.ReaderLagsOne | lib/HermesProxy.cc:630-665 | a fresh ring's first claim fills slot 1 while the take after it hands out slot 0; once the reader has caught up, the slot of the latest claim is the reader's slot, yet a take is refused |
| Ring.ClaimUpToCounts | lib/HermesProxy.cc:574-579 | k claims in a row that stop at the first refusal are refused exactly when k more slots would overfill the ring; they claim k slots, or all the free ones when refused, and leave r alone |
| Ring.ClaimUpToSlots | lib/HermesProxy.cc:574-579 | the slots a run claims are the ones after w, in order |
| Ring.ClaimsAvoidReader | lib/HermesProxy.cc:574-579 | no claimed slot is r or still queued for the reader |
| Receive.Unpack2C | lib/HermesProxy.cc:602-618 | zero while the receiver is muted; otherwise a value in the signed 24-bit range, congruent to the unsigned value of the three bytes |
| Receive.Unpack2CValue | lib/HermesProxy.cc:611-615 | the value is the unsigned value less 2^24 when the top bit is set |
| Receive.Unpack2CInvertsPack24 | lib/HermesProxy.cc:602-618 | unpacking the three bytes Hermes sends for a 24-bit value gives that value |
| Receive.Pack24InvertsUnpack2C | lib/HermesProxy.cc:602-618 | packing an unpacked value gives back the three bytes |
| Receive.Unpack2CExamples | lib/HermesProxy.cc:602-618 | 7F FF FF, 80 00 00, FF FF FF and 00 00 00 give 8388607, -8388608, -1 and 0 |
| Receive.SequenceNumber | lib/HermesProxy.cc:358-361 | the big-endian number in bytes 4 .. 7 fits in 32 bits |
| Receive.TrackAllSpec | lib/HermesProxy.cc:363-372 | over any run of arrivals, the current number becomes the largest seen and stale numbers are ignored; a jump larger than one adds its whole difference to the loss count, so every gap counts at least 2 |
| Receive.InOrderLosesNothing | lib/HermesProxy.cc:363-372 | consecutive sequence numbers count no loss |
| Receive.DecodeStatus | lib/HermesProxy.cc:428-460 | a C0 that selects none of the four status banks leaves the status unchanged |
| Receive.StatusRoundTrip | lib/HermesProxy.cc:428-460 | decoding the bytes Hermes sends for a status bank takes over exactly that bank's fields and keeps all other fields |
| Receive.FrameValues | lib/HermesProxy.cc:584-594 | a frame unpacks into never more than 160 values |
| Receive.FrameFits | lib/HermesProxy.cc:584-594 | the rows of 6N + 2 bytes fit in the 504 sample bytes of a frame |
| Receive.ReceiverSample | lib/HermesProxy.cc:584-594 | the I and Q samples of receiver r in row k start RowStart(N, k) + 6r bytes into the frame and are stored as values ValueStart(N, k) + 2r and the one after |
| Receive.FrameLaidOut | lib/HermesProxy.cc:584-594 | the decoded values of a frame hold every receiver's samples of every row in the places the receive loop stores them |
| Receive.LaidOutUnique | lib/HermesProxy.cc:584-594 | a frame can be laid out in one way only |
| Receive.LaidOutIsFrame | lib/HermesProxy.cc:584-594 | a sequence is laid out as a frame exactly when it is that frame's decoded values |
| Receive.SamplesRoundTrip | lib/HermesProxy.cc:584-594 | the values Hermes packs for receiver r in row k are found again in the laid-out buffer |
| Schedule.SpeedFactor | lib/HermesProxy.cc:813 | the rate is 48000 times the speed factor |
| Schedule.SpeedIndex | lib/HermesProxy.cc:813-815 | the speed index k is below 4 and the speed factor is 2^k |
| Schedule.Selector | lib/HermesProxy.cc:811-817 | the selector indexes one of the twenty vectors |
| Schedule.CycleLength | lib/HermesProxy.cc:821-828 | the residue is taken modulo 63 times the speed factor |
| Schedule.Vector3_48 | lib/HermesProxy.cc:70-71 | L3_48 is strictly increasing inside a cycle of 63 frames and has 25 entries; consecutive sends, counted round the cycle, are at most 3 frames apart, and the gap from the last entry to the first of the next cycle is exactly 3 |
| Schedule.Vector3_96 | lib/HermesProxy.cc:72-73 | L3_96 is strictly increasing inside a cycle of 126 frames and has 26 entries; consecutive sends, counted round the cycle, are at most 5 frames apart, and the gap from the last entry to the first of the next cycle is exactly 5 |
| Schedule.Vector3_192 | lib/HermesProxy.cc:74-75 | L3_192 is strictly increasing inside a cycle of 252 frames and has 26 entries; consecutive sends, counted round the cycle, are at most 10 frames apart, and the gap from the last entry to the first of the next cycle is exactly 10 |
| Schedule.Vector3_384 | lib/HermesProxy.cc:76-77 | L3_384 is strictly increasing inside a cycle of 504 frames and has 26 entries; consecutive sends, counted round the cycle, are at most 20 frames apart, and the gap from the last entry to the first of the next cycle is exactly 20 |
| Schedule.Vector4_48 | lib/HermesProxy.cc:80-81 | L4_48 is strictly increasing inside a cycle of 63 frames and has 19 entries; consecutive sends, counted round the cycle, are at most 4 frames apart, and the gap from the last entry to the first of the next cycle is exactly 4 |
| Schedule.Vector4_96 | lib/HermesProxy.cc:82-83 | L4_96 is strictly increasing inside a cycle of 126 frames and has 19 entries; consecutive sends, counted round the cycle, are at most 8 frames apart, and the gap from the last entry to the first of the next cycle is exactly 8 |
| Schedule.Vector4_192 | lib/HermesProxy.cc:84-85 | L4_192 is strictly increasing inside a cycle of 252 frames and has 19 entries; consecutive sends, counted round the cycle, are at most 16 frames apart, and the gap from the last entry to the first of the next cycle is exactly 16 |
| Schedule.Vector4_384 | lib/HermesProxy.cc:86-87 | L4_384 is strictly increasing inside a cycle of 504 frames and has 19 entries; consecutive sends, counted round the cycle, are at most 32 frames apart, and the gap from the last entry to the first of the next cycle is exactly 32 |
| Schedule.Vector5_48 | lib/HermesProxy.cc:90 | L5_48 is strictly increasing inside a cycle of 63 frames and has 15 entries; consecutive sends, counted round the cycle, are at most 5 frames apart, and the gap from the last entry to the first of the next cycle is exactly 5 |
| Schedule.Vector5_96 | lib/HermesProxy.cc:91 | L5_96 is strictly increasing inside a cycle of 126 frames and has 15 entries; consecutive sends, counted round the cycle, are at most 10 frames apart, and the gap from the last entry to the first of the next cycle is exactly 10 |
| Schedule.Vector5_192 | lib/HermesProxy.cc:92 | L5_192 is strictly increasing inside a cycle of 252 frames and has 15 entries; consecutive sends, counted round the cycle, are at most 20 frames apart, and the gap from the last entry to the first of the next cycle is exactly 20 |
| Schedule.Vector5_384 | lib/HermesProxy.cc:93 | L5_384 is strictly increasing inside a cycle of 504 frames and has 15 entries; consecutive sends, counted round the cycle, are at most 40 frames apart, and the gap from the last entry to the first of the next cycle is exactly 40 |
| Schedule.Vector6_48 | lib/HermesProxy.cc:96 | L6_48 is strictly increasing inside a cycle of 63 frames and has 13 entries; consecutive sends, counted round the cycle, are at most 6 frames apart, and the gap from the last entry to the first of the next cycle is exactly 6 |
| Schedule.Vector6_96 | lib/HermesProxy.cc:97 | L6_96 is strictly increasing inside a cycle of 126 frames and has 13 entries; consecutive sends, counted round the cycle, are at most 12 frames apart, and the gap from the last entry to the first of the next cycle is exactly 12 |
| Schedule.Vector6_192 | lib/HermesProxy.cc:98 | L6_192 is strictly increasing inside a cycle of 252 frames and has 13 entries; consecutive sends, counted round the cycle, are at most 24 frames apart, and the gap from the last entry to the first of the next cycle is exactly 24 |
| Schedule.Vector6_384 | lib/HermesProxy.cc:99 | L6_384 is strictly increasing inside a cycle of 504 frames and has 13 entries; consecutive sends, counted round the cycle, are at most 48 frames apart, and the gap from the last entry to the first of the next cycle is exactly 48 |
| Schedule.Vector7_48 | lib/HermesProxy.cc:102 | L7_48 is strictly increasing inside a cycle of 63 frames and has 11 entries; consecutive sends, counted round the cycle, are at most 7 frames apart, and the gap from the last entry to the first of the next cycle is exactly 7 |
| Schedule.Vector7_96 | lib/HermesProxy.cc:103 | L7_96 is strictly increasing inside a cycle of 126 frames and has 11 entries; consecutive sends, counted round the cycle, are at most 14 frames apart, and the gap from the last entry to the first of the next cycle is exactly 14 |
| Schedule.Vector7_192 | lib/HermesProxy.cc:104 | L7_192 is strictly increasing inside a cycle of 252 frames and has 11 entries; consecutive sends, counted round the cycle, are at most 28 frames apart, and the gap from the last entry to the first of the next cycle is exactly 28 |
| Schedule.Vector7_384 | lib/HermesProxy.cc:105 | L7_384 is strictly increasing inside a cycle of 504 frames and has 11 entries; consecutive sends, counted round the cycle, are at most 56 frames apart, and the gap from the last entry to the first of the next cycle is exactly 56 |
| Schedule.Table | lib/HermesProxy.cc:70-105 | every vector is strictly increasing inside its cycle and has USBRowCount[N - 1] entries (one more for three receivers above 48 kHz), with consecutive sends at most MaxGap(N, rate) frames apart |
| Schedule.MaxGap | lib/HermesProxy.cc:70-105 | the largest gap of each vector, N * s frames (5s / 2 for three receivers above 48 kHz), is positive and at most s * (ceil(63 / rows) + 1) |
| Schedule.WrapGap | lib/HermesProxy.cc:70-105 | every vector reaches MaxGap between its last entry and the first entry of the next cycle |
| Schedule.SelectsTable | lib/HermesProxy.cc:120-139 | entry (N - 3) * 4 + SpeedIndex of the vector array is the vector for N receivers at that rate |
| Schedule.WellSpreadInside | lib/HermesProxy.cc:70-105 | a well-spread vector is increasing and all its entries lie below the cycle length |
| Schedule.Period | lib/HermesProxy.cc:744-846 | every schedule has a positive period |
| Schedule.Residues | lib/HermesProxy.cc:744-846 | the residues at which a schedule fires are increasing and below the period |
| Schedule.FiresPattern | lib/HermesProxy.cc:744-846 | the scheduler fires exactly when the counter's residue modulo the period is listed; for one receiver 1 in 1, 2, 4 or 8, for two receivers {0, 2, 4, 6} of 7, {0, 4} of 7, 0 of 7 and 0 of 14 |
| Schedule.RateMatching | lib/HermesProxy.cc:744-846 | wherever it starts, a cycle of 63 times the speed factor datagrams fires exactly USBRowCount[N - 1] times, or one more for three receivers above 48 kHz |
| Schedule.PeriodsPerCycle | lib/HermesProxy.cc:744-846 | a cycle is a whole number of periods, and those periods hold the number of sends RateMatching states |
| Schedule.SendWithin | lib/HermesProxy.cc:806-844 | with 3 .. 7 receivers, every run of MaxGap(N, rate) datagrams, wherever it starts, triggers a send, and so does every run of s * (ceil(63 / rows) + 1) |
| Schedule.SendGapTight | lib/HermesProxy.cc:806-844 | MaxGap cannot be lowered: some run of MaxGap(N, rate) - 1 datagrams triggers no send |
| Schedule.UnlistedRateNeverSends | lib/HermesProxy.cc:746-803 | with one or two receivers and an unlisted rate the scheduler never sends |
| Transmit.NextBank | lib/HermesProxy.cc:1113-1115 | the cycler stays even and at most 0x14 |
| Transmit.CyclerBanksKnown | lib/HermesProxy.cc:1113-1117 | every bank the cycler selects is one BuildControlRegs knows, and bank 22 is never selected |
| Transmit.CyclerPeriod | lib/HermesProxy.cc:1113-1115 | the cycler comes back to its bank after exactly eleven frames and not sooner |
| Transmit.CyclerVisitsAll | lib/HermesProxy.cc:1113-1115 | every bank 0, 2, ..., 20 comes round within eleven frames |
| Transmit.WordDecodes | lib/HermesProxy.cc:1171-1174 | the two bytes of a word read back as the sample wrapped to 16 bits, exactly when it is in range |
| Transmit.IQDecodes | lib/HermesProxy.cc:1160-1174 | the I word carries the imaginary part and the Q word the real part, and both are zero while PTT-off muting applies |
| Transmit.ZeroWord | lib/HermesProxy.cc:1171-1174 | a word is zero exactly when the sample is a multiple of 2^16 |
| Transmit.ActivityMeansSignal | lib/HermesProxy.cc:1179-1192 | Vox hears activity exactly when the transmitter is not muted and some sample part is not a multiple of 2^16 |
| Transmit.TxFrameHeader | lib/HermesProxy.cc:1117-1194 | a transmit frame has the sync bytes, the bank in C0, MOX set exactly when PTT is on or Vox hears activity, and the bank's settings in C1 .. C4 |
| Transmit.TxFrameRow | lib/HermesProxy.cc:1124-1176 | row i of a transmit frame has four zero audio bytes and then the I and Q words of sample i |
| Transmit.TxFrameRows | lib/HermesProxy.cc:1124-1176 | after the control block the frame holds the rows |
| Transmit.MoxBit | lib/HermesProxy.cc:1193-1194 | setting MOX keeps the bank bits of C0 |
| Proxy.HermesProxy.constructor | lib/HermesProxy.cc:110-290 | stores the settings, with the frequencies taken modulo 2^32 and the clock source masked; resets rings, cycler, flags and counters; ends with UpdateHermes's start-up frames sent and a bank-0 frame in slot 0 |
| Proxy.HermesProxy.NewRxPool | lib/HermesProxy.cc:230-231 | NUMRXIQBUFS distinct new buffers of RXBUFSIZE values |
| Proxy.HermesProxy.NewTxPool | lib/HermesProxy.cc:234-235 | NUMTXBUFS distinct new buffers of TXBUFSIZE bytes |
| Proxy.HermesProxy.BuildControlRegs | lib/HermesProxy.cc:896-1090 | bytes 0 .. 7 become the control block of the bank, and no other byte changes |
| Proxy.HermesProxy.BankRegs | lib/HermesProxy.cc:912-1087 | C1 .. C4 become the bank's payload, or stay as they were for an unknown bank |
| Proxy.HermesProxy.GetNextRxBuf | lib/HermesProxy.cc:630-642 | refused claim: null, ring unchanged, one lost buffer counted; otherwise the claimed ring and its new write slot |
| Proxy.HermesProxy.GetRxIQ | lib/HermesProxy.cc:645-665 | empty ring: null and nothing changes; otherwise the buffer at the old read index, with the ring taken |
| Proxy.HermesProxy.GetNextTxBuf | lib/HermesProxy.cc:1205-1222 | refused claim: null and no change; otherwise the claimed ring and its new write slot |
| Proxy.HermesProxy.PutTxIQ | lib/HermesProxy.cc:1100-1201 | no free slot: returns 0 and changes nothing, the cycler included; otherwise it claims the slot, steps the cycler, fills the slot with the transmit frame of that bank and the samples, leaves every other slot alone and returns the sample count |
| Proxy.HermesProxy.AdvanceCycler | lib/HermesProxy.cc:1113-1115 | the bank steps by two and wraps to 0 after 0x14 |
| Proxy.HermesProxy.FillTxFrame | lib/HermesProxy.cc:1117-1195 | the slot starts with the transmit frame, and its bytes after the rows are kept |
| Proxy.HermesProxy.RowsAndVox | lib/HermesProxy.cc:1124-1195 | behind the control block come the rows, with MOX added when Vox hears activity |
| Proxy.HermesProxy.PutRows | lib/HermesProxy.cc:1124-1176 | bytes 8 .. 8 + 8n become the rows of the samples, and every other byte is kept |
| Proxy.HermesProxy.PutRow | lib/HermesProxy.cc:1145-1174 | the eight bytes of one row are written, and no other byte |
| Proxy.HermesProxy.VoxActivity | lib/HermesProxy.cc:1179-1192 | the scan of the IQ bytes finds activity exactly when some row carries a nonzero I or Q byte |
| Proxy.HermesProxy.SendTxIQ | lib/HermesProxy.cc:1229-1301 | the new transmit state is the drain machine's, and the frames of the slots it names are appended to the log |
| Proxy.HermesProxy.ReleaseBurst | lib/HermesProxy.cc:1248-1270 | the hold-off branch, as the drain machine's Release |
| Proxy.HermesProxy.SendSteady | lib/HermesProxy.cc:1245-1298 | the steady branch, as the drain machine's Steady |
| Proxy.HermesProxy.WriteFrames | lib/HermesProxy.cc:1264-1268 | n frames from consecutive slots are logged, and the read index advances n times |
| Proxy.HermesProxy.WriteOne | lib/HermesProxy.cc:1266-1267 | one frame is logged, and its slot is freed |
| Proxy.HermesProxy.ScheduleTxFrame | lib/HermesProxy.cc:739-849 | sends exactly when the schedule fires for this datagram count, and otherwise changes nothing |
| Proxy.HermesProxy.ReceiveRxIQ | lib/HermesProxy.cc:349-598 | sequence tracking, the datagram count and the scheduler run before the sync check; status and CorruptRxCount follow the sync scan; a datagram out of sync claims no buffer and changes no receive buffer; otherwise up to two buffers are claimed, at most one lost buffer is counted, and the claimed buffers hold the frames' values while all others are unchanged |
| Proxy.HermesProxy.ReceiveHeader | lib/HermesProxy.cc:358-407 | the sequence-number update, the datagram count and the scheduler decision |
| Proxy.HermesProxy.CountDatagram | lib/HermesProxy.cc:363-405 | the tracking of a sequence number, and the datagram counted |
| Proxy.HermesProxy.ReceiveFrames | lib/HermesProxy.cc:414-595 | the sync scan and status decoding, then unpacking exactly when both frames are in sync |
| Proxy.HermesProxy.CheckFrames | lib/HermesProxy.cc:414-508 | reports whether both frames are in sync, decodes the status of the frames before the first bad one, and counts one corrupt datagram when a frame is out of sync |
| Proxy.HermesProxy.UnpackFrames | lib/HermesProxy.cc:574-595 | one claim per frame, stopping at the first refusal; each claimed buffer holds its frame's values and every other buffer is unchanged |
| Proxy.HermesProxy.UnpackInto | lib/HermesProxy.cc:576-594 | claims a buffer and fills it with one frame's values, or counts a lost buffer and changes no buffer |
| Proxy.HermesProxy.UnpackSubFrame | lib/HermesProxy.cc:581-594 | the buffer starts with the laid-out values of the frame |
| Proxy.HermesProxy.UnpackRow | lib/HermesProxy.cc:586-592 | one row's I and Q values of every receiver are stored after the ones before |
| Proxy.HermesProxy.UpdateHermes | lib/HermesProxy.cc:851-893 | the six start-up frames are sent, and slot 0 then holds a bank-0 control-only frame |
| Proxy.HermesProxy.SendStartup | lib/HermesProxy.cc:870-883 | the start-up sequence is appended to the log |
| Proxy.HermesProxy.SendPair | lib/HermesProxy.cc:870-873 | bank 0 and then bank b are appended to the log |
| Proxy.HermesProxy.SendBank | lib/HermesProxy.cc:870-871 | the control-only frame of the bank is appended to the log |
| Proxy.HermesProxy.ControlOnlyFrame | lib/HermesProxy.cc:860-870 | over a buffer zero from byte 8 on, BuildControlRegs produces the control-only frame of the bank |
| Proxy.HermesProxy.CopyFrame | lib/HermesProxy.cc:887-890 | the 512 bytes are copied to the start of the slot, and the rest of the slot is kept |
| Proxy.HermesProxy.Start | lib/HermesProxy.cc:320-325 | TxStop cleared and TxHoldOff set, everything else of the transmit state kept |
| Proxy.HermesProxy.Stop | lib/HermesProxy.cc:314-318 | TxStop set, everything else of the transmit state kept |
| HermesNB.StreamOfFrame | lib/hermesNB_impl.cc:286-288 | item k of stream r is built from the I and Q samples receiver r sent in row k of the frame |
| HermesNB.StreamRoundTrip | lib/hermesNB_impl.cc:286-288 | with the 24-bit values sent for receiver r in row k, item k of stream r is exactly that pair: the deinterleaving inverts the packing |
| HermesNB.HermesNB.constructor | lib/hermesNB_impl.cc:86-89 | the block drives the given proxy |
| HermesNB.HermesNB.Start | lib/hermesNB_impl.cc:119-123 | delegates to the proxy's Start |
| HermesNB.HermesNB.Stop | lib/hermesNB_impl.cc:111-117 | delegates to the proxy's Stop |
| HermesNB.HermesNB.SetClockSource | lib/hermesNB_impl.cc:200-206 | ClockSource becomes the parsed word masked with 0xFC, and no other setting changes |
| HermesNB.HermesNB.GeneralWork | lib/hermesNB_impl.cc:239-293 | 63 samples are consumed exactly when at least 63 are offered and a transmit slot is free, otherwise none; with no receive buffer ready 0 items are produced, otherwise USBRowCount[N - 1] items, where output r holds stream r of the buffer taken |
| HermesNB.HermesNB.FeedTx | lib/hermesNB_impl.cc:263-268 | PutTxIQ is offered the first 63 samples only when 63 are present; the count consumed is its result, and the frame it fills is the transmit frame of those samples |
| HermesNB.HermesNB.DrainRx | lib/hermesNB_impl.cc:276-291 | no buffer: returns 0 and the ring is unchanged; otherwise it takes the buffer, returns USBRowCount[N - 1] and fills each output with its stream, leaving the transmit side alone |
| HermesNB.HermesNB.Deinterleave | lib/hermesNB_impl.cc:286-288 | output r starts with stream r: item k is the pair of buffer values 2 (k N + r) and the one after |
| HermesNB.HermesNB.DeliverRow | lib/hermesNB_impl.cc:287-288 | item `index` of every stream is written, and no other output entry changes |

## Left out

- The UDP transport `metis_*` (discovery, stream control, the receive thread and its shutdown) is external I/O. A `metis_write` is modelled only as an entry appended to the ghost log `sent`.
- The MAC-address search loops at lib/HermesProxy.cc:266-285 are left out. They wait on the network without bound. The interface name and MAC arguments of the constructor are dropped with them.
- The floating-point steps are left out:
  - the division by 8388607.0 in `Unpack2C`: the buffers hold the integer numerators;
  - the `* 32767.0` scaling in `PutTxIQ`: samples arrive as the scaled integers;
  - `sscanf` of the clock-source text: it arrives as the parsed word.
- The hermesNB setters other than `set_ClockSource` are left out. These are the float frequency setters, rate, preamp, PTT, drive, Alex antenna and filter selections, and Verbose. Each just assigns one proxy field.
- The user-visible output of the source is left out: the verbose power and SWR report, every `fprintf`, `PrintRawBuf` and the destructor's statistics. These are diagnostics only.
- Threading is not modelled. The metis receive thread and the GNU Radio scheduler call the proxy concurrently in the source. Here every call is sequential.
- GNU Radio block machinery is left out: `make`, `forecast`, `set_output_multiple`, the value `gr::block::start`/`stop` return, and `delete Hermes` in `stop`. The global `Hermes` pointer is a field of the block.
- The `bad_alloc` handler and the destructor's `delete[]`s are memory management outside the model.
- `ReceiveMicLR` is empty in the source.
- `status` is not set by the constructor, because the source does not initialise those fields.
- PTTModeSel arrives as a `PttMode`, not as its integer code. The integer codes are defined in HermesProxy.h, which is not part of this model.
- Counters are unbounded. The wrap-around of the source's `unsigned long` counters after 2^64 datagrams is not modelled. The sequence number itself is read as a 32-bit value.
- Proxy.HermesProxy.ScheduleTxFrame: requires `Schedule.ScheduleDefined`. Eight receivers would index past the twenty schedule vectors. An unlisted rate with three or more receivers would read an unset frame index. The source leaves both undefined.
- Proxy.HermesProxy.ReceiveHeader: calls the scheduler before the sequence-number update, unlike the source. The scheduler reads none of the counters that update changes, and it gets the same datagram count, so the resulting state is the same.
- Proxy.HermesProxy.PutTxIQ: requires the frame to fit in TXBUFSIZE bytes. The source writes past the buffer otherwise.
- Proxy.HermesProxy.constructor: requires 1 .. 8 receivers and power-of-two pool sizes. Other values make the source index past USBRowCount or break its ring masking.
- HermesNB.HermesNB.GeneralWork: its contract states the transmit ring, the bank cycler and the count consumed, but not the contents of the filled transmit slot. That is stated by HermesNB.HermesNB.FeedTx, which GeneralWork calls.
- HermesNB.HermesNB.Deinterleave: an item is the pair of its two buffer values in buffer order. Which of them becomes the real part depends on the compiler's evaluation order of `gr_complex(*Rx++, *Rx++)`.
