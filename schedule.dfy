/**
 * The transmit scheduler of HermesProxy (ScheduleTxFrame).  Hermes consumes
 * 63 transmit samples per 512-byte USB frame at 48 kHz, while each received
 * USB frame carries USBRowCount[N - 1] rows for N receivers, and 63 / 2^k
 * as many per frame at 48000 * 2^k Hz.  For every received datagram the
 * proxy decides from the datagram counter whether to send one transmit
 * datagram (two USB frames), so that transmit frames go out at the rate
 * the hardware consumes them.
 */
module Schedule {
  import opened Bits

  /** Sample rows in one 512-byte USB frame for 1 .. 8 receivers. */
  const USBRowCount: seq<nat> := [63, 36, 25, 19, 15, 13, 11, 10]

  // The schedule vectors: the counter values modulo 63, 126, 252 or 504 at
  // which a transmit datagram is sent, for 3 .. 7 receivers at 48, 96, 192
  // and 384 kHz.
  const L3_48: seq<nat> := [0, 3, 5, 8, 10, 13, 15, 18, 20, 23, 25, 28, 30, 33, 35, 38, 40,
    43, 45, 48, 50, 53, 55, 58, 60]
  const L3_96: seq<nat> := [1, 5, 10, 15, 20, 25, 30, 35, 40, 45, 50, 55, 59, 64, 69, 74,
    79, 84, 89, 94, 98, 103, 108, 113, 118, 122]
  const L3_192: seq<nat> := [2, 10, 20, 30, 40, 50, 60, 70, 80, 90, 100, 110, 118, 128,
    138, 148, 158, 168, 178, 188, 196, 206, 216, 226, 236, 244]
  const L3_384: seq<nat> := [4, 20, 40, 60, 80, 100, 120, 140, 160, 180, 200, 220, 236,
    256, 276, 296, 316, 336, 356, 376, 392, 412, 432, 452, 472, 488]
  const L4_48: seq<nat> := [3, 6, 10, 13, 16, 20, 23, 26, 30, 33, 36, 40, 43, 46, 50, 53,
    56, 59, 62]
  const L4_96: seq<nat> := [6, 12, 20, 26, 32, 40, 46, 52, 60, 66, 72, 80, 86, 92, 100,
    106, 112, 118, 124]
  const L4_192: seq<nat> := [12, 24, 40, 52, 64, 80, 92, 104, 120, 132, 144, 160, 172, 184,
    200, 212, 224, 236, 248]
  const L4_384: seq<nat> := [24, 48, 80, 104, 128, 160, 184, 208, 240, 264, 288, 320, 344,
    368, 400, 424, 448, 472, 496]
  const L5_48: seq<nat> := [4, 8, 12, 16, 21, 25, 29, 33, 37, 42, 46, 50, 54, 58, 62]
  const L5_96: seq<nat> := [8, 16, 24, 32, 42, 50, 58, 66, 74, 84, 92, 100, 108, 116, 124]
  const L5_192: seq<nat> := [16, 32, 48, 64, 84, 100, 116, 132, 148, 168, 184, 200, 216,
    232, 248]
  const L5_384: seq<nat> := [32, 64, 96, 128, 168, 200, 232, 264, 296, 336, 368, 400, 432,
    464, 496]
  const L6_48: seq<nat> := [5, 10, 15, 20, 24, 29, 34, 39, 44, 48, 53, 58, 62]
  const L6_96: seq<nat> := [10, 20, 30, 40, 48, 58, 68, 78, 88, 96, 106, 116, 124]
  const L6_192: seq<nat> := [20, 40, 60, 80, 96, 116, 136, 156, 176, 192, 212, 232, 248]
  const L6_384: seq<nat> := [40, 80, 120, 160, 192, 232, 272, 312, 352, 384, 424, 464, 496]
  const L7_48: seq<nat> := [6, 12, 17, 23, 29, 34, 40, 45, 51, 57, 62]
  const L7_96: seq<nat> := [12, 24, 34, 46, 58, 68, 80, 90, 102, 114, 124]
  const L7_192: seq<nat> := [24, 48, 68, 92, 116, 136, 160, 180, 204, 228, 248]
  const L7_384: seq<nat> := [48, 96, 136, 184, 232, 272, 320, 360, 408, 456, 496]

  /** The vectors in the order of the selector (NumReceivers - 3) * 4 + SpeedIndex. */
  const ScheduleVector: seq<seq<nat>> :=
    [L3_48, L3_96, L3_192, L3_384, L4_48, L4_96, L4_192, L4_384,
     L5_48, L5_96, L5_192, L5_384, L6_48, L6_96, L6_192, L6_384,
     L7_48, L7_96, L7_192, L7_384]

  predicate ListedRate(rate: int)
  {
    rate == 48000 || rate == 96000 || rate == 192000 || rate == 384000
  }

  /** The inputs for which ScheduleTxFrame is defined: with three or more
      receivers it indexes the twenty vectors, which exist for 3 .. 7
      receivers, and reads a frame index that is only set for the four
      listed rates. */
  predicate ScheduleDefined(n: int, rate: int)
  {
    n == 1 || n == 2 || (3 <= n <= 7 && ListedRate(rate))
  }

  /** 48k, 96k, 192k, 384k --> 1, 2, 4, 8 */
  function SpeedFactor(rate: int): (s: nat)
    requires ListedRate(rate)
    ensures s >= 1 && rate == 48000 * s
  {
    rate / 48000
  }

  /** 48k, 96k, 192k, 384k --> 0, 1, 2, 3 */
  function SpeedIndex(rate: int): (s: nat)
    requires ListedRate(rate)
    ensures s < 4 && SpeedFactor(rate) == Pow2(s)
  {
    var k := SpeedFactor(rate) / 2;
    if k == 4 then 3 else k
  }

  function Selector(n: int, rate: int): (sel: nat)
    requires 3 <= n <= 7 && ListedRate(rate)
    ensures sel < |ScheduleVector|
  {
    (n - 3) * 4 + SpeedIndex(rate)
  }

  /** The number of received frames a schedule vector spans. */
  function CycleLength(rate: int): (len: nat)
    requires ListedRate(rate)
    ensures len == 63 * SpeedFactor(rate)
  {
    if rate == 48000 then 63
    else if rate == 96000 then 126
    else if rate == 192000 then 252
    else 504
  }

  /** ScheduleTxFrame(count) with NumReceivers = n and RxSampleRate = rate:
      whether it calls SendTxIQ. */
  function Fires(n: int, rate: int, count: nat): bool
    requires ScheduleDefined(n, rate)
  {
    if n == 1 then
      if rate == 48000 then true
      else if rate == 96000 then And(count, 1) == 0
      else if rate == 192000 then And(count, 3) == 0
      else if rate == 384000 then And(count, 7) == 0
      else false
    else if n == 2 then
      if rate == 48000 then And(count % 7, 1) == 0
      else if rate == 96000 then And(count % 7, 3) == 0
      else if rate == 192000 then count % 7 == 0
      else if rate == 384000 then count % 14 == 0
      else false
    else
      count % CycleLength(rate) in ScheduleVector[Selector(n, rate)]
  }

  predicate Increasing(t: seq<nat>)
  {
    forall i :: 0 < i < |t| ==> t[i - 1] < t[i]
  }

  predicate AllBelow(t: seq<nat>, p: nat)
  {
    forall i :: 0 <= i < |t| ==> t[i] < p
  }

  /** t lists len strictly increasing frame indices inside a cycle of p
      frames, and going round the cycle two consecutive ones are never more
      than g frames apart. */
  predicate WellSpread(t: seq<nat>, p: nat, len: nat, g: nat)
  {
    && |t| == len && len > 0 && t[len - 1] < p && t[0] + p - t[len - 1] <= g
    && forall i :: 0 < i < len ==> t[i - 1] < t[i] <= t[i - 1] + g
  }

  /** A uniform bound on the distance between sends for n receivers at a
      rate with speed factor s: the average distance, 63 * s / rows frames,
      rounded up to whole multiples of s, plus one more multiple. */
  function Spacing(n: int, s: nat): nat
    requires 1 <= n <= 8
  {
    var rows := USBRowCount[n - 1];
    s * ((63 + rows - 1) / rows + 1)
  }

  /** The largest distance between consecutive sends, going round the
      cycle, of the vector for n receivers: n frames per speed factor, and
      two and a half for three receivers above 48 kHz. */
  function MaxGap(n: int, rate: int): (g: nat)
    requires 3 <= n <= 7 && ListedRate(rate)
    ensures 1 <= g <= Spacing(n, SpeedFactor(rate))
  {
    var s := SpeedFactor(rate);
    if n == 3 && rate != 48000 then 5 * s / 2 else n * s
  }

  lemma Vector3_48()
    ensures WellSpread(L3_48, CycleLength(48000), USBRowCount[2], MaxGap(3, 48000))
    ensures L3_48[0] + CycleLength(48000) - L3_48[24] == MaxGap(3, 48000)
  {
    assert CycleLength(48000) == 63 && MaxGap(3, 48000) == 3;
    forall i | 0 < i < 25
      ensures L3_48[i - 1] < L3_48[i] <= L3_48[i - 1] + 3
    {
      if i < 7 {} else if i < 13 {} else if i < 19 {} else {}
    }
  }

  lemma Vector3_96()
    ensures WellSpread(L3_96, CycleLength(96000), USBRowCount[2] + 1, MaxGap(3, 96000))
    ensures L3_96[0] + CycleLength(96000) - L3_96[25] == MaxGap(3, 96000)
  {
    assert CycleLength(96000) == 126 && MaxGap(3, 96000) == 5;
    forall i | 0 < i < 26
      ensures L3_96[i - 1] < L3_96[i] <= L3_96[i - 1] + 5
    {
      if i < 7 {} else if i < 13 {} else if i < 19 {} else {}
    }
  }

  lemma Vector3_192()
    ensures WellSpread(L3_192, CycleLength(192000), USBRowCount[2] + 1, MaxGap(3, 192000))
    ensures L3_192[0] + CycleLength(192000) - L3_192[25] == MaxGap(3, 192000)
  {
    assert CycleLength(192000) == 252 && MaxGap(3, 192000) == 10;
    forall i | 0 < i < 26
      ensures L3_192[i - 1] < L3_192[i] <= L3_192[i - 1] + 10
    {
      if i < 7 {} else if i < 13 {} else if i < 19 {} else {}
    }
  }

  lemma Vector3_384()
    ensures WellSpread(L3_384, CycleLength(384000), USBRowCount[2] + 1, MaxGap(3, 384000))
    ensures L3_384[0] + CycleLength(384000) - L3_384[25] == MaxGap(3, 384000)
  {
    assert CycleLength(384000) == 504 && MaxGap(3, 384000) == 20;
    forall i | 0 < i < 26
      ensures L3_384[i - 1] < L3_384[i] <= L3_384[i - 1] + 20
    {
      if i < 7 {} else if i < 13 {} else if i < 19 {} else {}
    }
  }

  lemma Vector4_48()
    ensures WellSpread(L4_48, CycleLength(48000), USBRowCount[3], MaxGap(4, 48000))
    ensures L4_48[0] + CycleLength(48000) - L4_48[18] == MaxGap(4, 48000)
  {
    assert CycleLength(48000) == 63 && MaxGap(4, 48000) == 4;
    forall i | 0 < i < 19
      ensures L4_48[i - 1] < L4_48[i] <= L4_48[i - 1] + 4
    {
      if i < 7 {} else if i < 13 {} else if i < 19 {} else {}
    }
  }

  lemma Vector4_96()
    ensures WellSpread(L4_96, CycleLength(96000), USBRowCount[3], MaxGap(4, 96000))
    ensures L4_96[0] + CycleLength(96000) - L4_96[18] == MaxGap(4, 96000)
  {
    assert CycleLength(96000) == 126 && MaxGap(4, 96000) == 8;
    forall i | 0 < i < 19
      ensures L4_96[i - 1] < L4_96[i] <= L4_96[i - 1] + 8
    {
      if i < 7 {} else if i < 13 {} else if i < 19 {} else {}
    }
  }

  lemma Vector4_192()
    ensures WellSpread(L4_192, CycleLength(192000), USBRowCount[3], MaxGap(4, 192000))
    ensures L4_192[0] + CycleLength(192000) - L4_192[18] == MaxGap(4, 192000)
  {
    assert CycleLength(192000) == 252 && MaxGap(4, 192000) == 16;
    forall i | 0 < i < 19
      ensures L4_192[i - 1] < L4_192[i] <= L4_192[i - 1] + 16
    {
      if i < 7 {} else if i < 13 {} else if i < 19 {} else {}
    }
  }

  lemma Vector4_384()
    ensures WellSpread(L4_384, CycleLength(384000), USBRowCount[3], MaxGap(4, 384000))
    ensures L4_384[0] + CycleLength(384000) - L4_384[18] == MaxGap(4, 384000)
  {
    assert CycleLength(384000) == 504 && MaxGap(4, 384000) == 32;
    forall i | 0 < i < 19
      ensures L4_384[i - 1] < L4_384[i] <= L4_384[i - 1] + 32
    {
      if i < 7 {} else if i < 13 {} else if i < 19 {} else {}
    }
  }

  lemma Vector5_48()
    ensures WellSpread(L5_48, CycleLength(48000), USBRowCount[4], MaxGap(5, 48000))
    ensures L5_48[0] + CycleLength(48000) - L5_48[14] == MaxGap(5, 48000)
  {
    assert CycleLength(48000) == 63 && MaxGap(5, 48000) == 5;
    forall i | 0 < i < 15
      ensures L5_48[i - 1] < L5_48[i] <= L5_48[i - 1] + 5
    {
      if i < 7 {} else if i < 13 {} else if i < 19 {} else {}
    }
  }

  lemma Vector5_96()
    ensures WellSpread(L5_96, CycleLength(96000), USBRowCount[4], MaxGap(5, 96000))
    ensures L5_96[0] + CycleLength(96000) - L5_96[14] == MaxGap(5, 96000)
  {
    assert CycleLength(96000) == 126 && MaxGap(5, 96000) == 10;
    forall i | 0 < i < 15
      ensures L5_96[i - 1] < L5_96[i] <= L5_96[i - 1] + 10
    {
      if i < 7 {} else if i < 13 {} else if i < 19 {} else {}
    }
  }

  lemma Vector5_192()
    ensures WellSpread(L5_192, CycleLength(192000), USBRowCount[4], MaxGap(5, 192000))
    ensures L5_192[0] + CycleLength(192000) - L5_192[14] == MaxGap(5, 192000)
  {
    assert CycleLength(192000) == 252 && MaxGap(5, 192000) == 20;
    forall i | 0 < i < 15
      ensures L5_192[i - 1] < L5_192[i] <= L5_192[i - 1] + 20
    {
      if i < 7 {} else if i < 13 {} else if i < 19 {} else {}
    }
  }

  lemma Vector5_384()
    ensures WellSpread(L5_384, CycleLength(384000), USBRowCount[4], MaxGap(5, 384000))
    ensures L5_384[0] + CycleLength(384000) - L5_384[14] == MaxGap(5, 384000)
  {
    assert CycleLength(384000) == 504 && MaxGap(5, 384000) == 40;
    forall i | 0 < i < 15
      ensures L5_384[i - 1] < L5_384[i] <= L5_384[i - 1] + 40
    {
      if i < 7 {} else if i < 13 {} else if i < 19 {} else {}
    }
  }

  lemma Vector6_48()
    ensures WellSpread(L6_48, CycleLength(48000), USBRowCount[5], MaxGap(6, 48000))
    ensures L6_48[0] + CycleLength(48000) - L6_48[12] == MaxGap(6, 48000)
  {
    assert CycleLength(48000) == 63 && MaxGap(6, 48000) == 6;
    forall i | 0 < i < 13
      ensures L6_48[i - 1] < L6_48[i] <= L6_48[i - 1] + 6
    {
      if i < 7 {} else if i < 13 {} else if i < 19 {} else {}
    }
  }

  lemma Vector6_96()
    ensures WellSpread(L6_96, CycleLength(96000), USBRowCount[5], MaxGap(6, 96000))
    ensures L6_96[0] + CycleLength(96000) - L6_96[12] == MaxGap(6, 96000)
  {
    assert CycleLength(96000) == 126 && MaxGap(6, 96000) == 12;
    forall i | 0 < i < 13
      ensures L6_96[i - 1] < L6_96[i] <= L6_96[i - 1] + 12
    {
      if i < 7 {} else if i < 13 {} else if i < 19 {} else {}
    }
  }

  lemma Vector6_192()
    ensures WellSpread(L6_192, CycleLength(192000), USBRowCount[5], MaxGap(6, 192000))
    ensures L6_192[0] + CycleLength(192000) - L6_192[12] == MaxGap(6, 192000)
  {
    assert CycleLength(192000) == 252 && MaxGap(6, 192000) == 24;
    forall i | 0 < i < 13
      ensures L6_192[i - 1] < L6_192[i] <= L6_192[i - 1] + 24
    {
      if i < 7 {} else if i < 13 {} else if i < 19 {} else {}
    }
  }

  lemma Vector6_384()
    ensures WellSpread(L6_384, CycleLength(384000), USBRowCount[5], MaxGap(6, 384000))
    ensures L6_384[0] + CycleLength(384000) - L6_384[12] == MaxGap(6, 384000)
  {
    assert CycleLength(384000) == 504 && MaxGap(6, 384000) == 48;
    forall i | 0 < i < 13
      ensures L6_384[i - 1] < L6_384[i] <= L6_384[i - 1] + 48
    {
      if i < 7 {} else if i < 13 {} else if i < 19 {} else {}
    }
  }

  lemma Vector7_48()
    ensures WellSpread(L7_48, CycleLength(48000), USBRowCount[6], MaxGap(7, 48000))
    ensures L7_48[0] + CycleLength(48000) - L7_48[10] == MaxGap(7, 48000)
  {
    assert CycleLength(48000) == 63 && MaxGap(7, 48000) == 7;
    forall i | 0 < i < 11
      ensures L7_48[i - 1] < L7_48[i] <= L7_48[i - 1] + 7
    {
      if i < 7 {} else if i < 13 {} else if i < 19 {} else {}
    }
  }

  lemma Vector7_96()
    ensures WellSpread(L7_96, CycleLength(96000), USBRowCount[6], MaxGap(7, 96000))
    ensures L7_96[0] + CycleLength(96000) - L7_96[10] == MaxGap(7, 96000)
  {
    assert CycleLength(96000) == 126 && MaxGap(7, 96000) == 14;
    forall i | 0 < i < 11
      ensures L7_96[i - 1] < L7_96[i] <= L7_96[i - 1] + 14
    {
      if i < 7 {} else if i < 13 {} else if i < 19 {} else {}
    }
  }

  lemma Vector7_192()
    ensures WellSpread(L7_192, CycleLength(192000), USBRowCount[6], MaxGap(7, 192000))
    ensures L7_192[0] + CycleLength(192000) - L7_192[10] == MaxGap(7, 192000)
  {
    assert CycleLength(192000) == 252 && MaxGap(7, 192000) == 28;
    forall i | 0 < i < 11
      ensures L7_192[i - 1] < L7_192[i] <= L7_192[i - 1] + 28
    {
      if i < 7 {} else if i < 13 {} else if i < 19 {} else {}
    }
  }

  lemma Vector7_384()
    ensures WellSpread(L7_384, CycleLength(384000), USBRowCount[6], MaxGap(7, 384000))
    ensures L7_384[0] + CycleLength(384000) - L7_384[10] == MaxGap(7, 384000)
  {
    assert CycleLength(384000) == 504 && MaxGap(7, 384000) == 56;
    forall i | 0 < i < 11
      ensures L7_384[i - 1] < L7_384[i] <= L7_384[i - 1] + 56
    {
      if i < 7 {} else if i < 13 {} else if i < 19 {} else {}
    }
  }

  /** The schedule vector for 3 .. 7 receivers: strictly increasing frame
      indices inside the cycle, one per USB frame's worth of transmit
      samples -- except that the three vectors for three receivers above
      48 kHz carry one index more than the 25 rows of a frame -- spread so
      that consecutive sends are at most MaxGap apart. */
  function Table(n: int, rate: int): (t: seq<nat>)
    requires 3 <= n <= 7 && ListedRate(rate)
    ensures WellSpread(t, CycleLength(rate),
                       USBRowCount[n - 1] + (if n == 3 && rate != 48000 then 1 else 0),
                       MaxGap(n, rate))
  {
    if n == 3 then
      if rate == 48000 then Vector3_48(); L3_48
      else if rate == 96000 then Vector3_96(); L3_96
      else if rate == 192000 then Vector3_192(); L3_192
      else Vector3_384(); L3_384
    else if n == 4 then
      if rate == 48000 then Vector4_48(); L4_48
      else if rate == 96000 then Vector4_96(); L4_96
      else if rate == 192000 then Vector4_192(); L4_192
      else Vector4_384(); L4_384
    else if n == 5 then
      if rate == 48000 then Vector5_48(); L5_48
      else if rate == 96000 then Vector5_96(); L5_96
      else if rate == 192000 then Vector5_192(); L5_192
      else Vector5_384(); L5_384
    else if n == 6 then
      if rate == 48000 then Vector6_48(); L6_48
      else if rate == 96000 then Vector6_96(); L6_96
      else if rate == 192000 then Vector6_192(); L6_192
      else Vector6_384(); L6_384
    else
      if rate == 48000 then Vector7_48(); L7_48
      else if rate == 96000 then Vector7_96(); L7_96
      else if rate == 192000 then Vector7_192(); L7_192
      else Vector7_384(); L7_384
  }

  /** ScheduleTxFrame's selector picks Table's vector out of ScheduleVector. */
  lemma SelectsTable(n: int, rate: int)
    requires 3 <= n <= 7 && ListedRate(rate)
    ensures ScheduleVector[Selector(n, rate)] == Table(n, rate)
  {
    if n == 3 {
      if rate == 48000 {
        assert Selector(n, rate) == 0 && ScheduleVector[0] == L3_48;
      } else if rate == 96000 {
        assert Selector(n, rate) == 1 && ScheduleVector[1] == L3_96;
      } else if rate == 192000 {
        assert Selector(n, rate) == 2 && ScheduleVector[2] == L3_192;
      } else {
        assert Selector(n, rate) == 3 && ScheduleVector[3] == L3_384;
      }
    } else if n == 4 {
      if rate == 48000 {
        assert Selector(n, rate) == 4 && ScheduleVector[4] == L4_48;
      } else if rate == 96000 {
        assert Selector(n, rate) == 5 && ScheduleVector[5] == L4_96;
      } else if rate == 192000 {
        assert Selector(n, rate) == 6 && ScheduleVector[6] == L4_192;
      } else {
        assert Selector(n, rate) == 7 && ScheduleVector[7] == L4_384;
      }
    } else if n == 5 {
      if rate == 48000 {
        assert Selector(n, rate) == 8 && ScheduleVector[8] == L5_48;
      } else if rate == 96000 {
        assert Selector(n, rate) == 9 && ScheduleVector[9] == L5_96;
      } else if rate == 192000 {
        assert Selector(n, rate) == 10 && ScheduleVector[10] == L5_192;
      } else {
        assert Selector(n, rate) == 11 && ScheduleVector[11] == L5_384;
      }
    } else if n == 6 {
      if rate == 48000 {
        assert Selector(n, rate) == 12 && ScheduleVector[12] == L6_48;
      } else if rate == 96000 {
        assert Selector(n, rate) == 13 && ScheduleVector[13] == L6_96;
      } else if rate == 192000 {
        assert Selector(n, rate) == 14 && ScheduleVector[14] == L6_192;
      } else {
        assert Selector(n, rate) == 15 && ScheduleVector[15] == L6_384;
      }
    } else {
      if rate == 48000 {
        assert Selector(n, rate) == 16 && ScheduleVector[16] == L7_48;
      } else if rate == 96000 {
        assert Selector(n, rate) == 17 && ScheduleVector[17] == L7_96;
      } else if rate == 192000 {
        assert Selector(n, rate) == 18 && ScheduleVector[18] == L7_192;
      } else {
        assert Selector(n, rate) == 19 && ScheduleVector[19] == L7_384;
      }
    }
  }

  /** A well-spread list is increasing and lies inside the cycle. */
  lemma {:induction false} WellSpreadInside(t: seq<nat>, p: nat, len: nat, g: nat)
    requires WellSpread(t, p, len, g)
    ensures Increasing(t) && AllBelow(t, p)
  {
    forall i | 0 <= i < |t|
      ensures t[i] < p
    {
      BelowLast(t, i);
    }
  }

  lemma {:induction false} BelowLast(t: seq<nat>, i: nat)
    requires Increasing(t) && i < |t|
    ensures t[i] <= t[|t| - 1]
    decreases |t| - i
  {
    if i < |t| - 1 {
      BelowLast(t, i + 1);
    }
  }

  /** Every schedule is periodic: it fires exactly at the counters whose
      residue modulo Period lies in Residues. */
  function Period(n: int, rate: int): (p: nat)
    requires ScheduleDefined(n, rate)
    ensures p >= 1
  {
    if n == 1 then (if ListedRate(rate) then SpeedFactor(rate) else 1)
    else if n == 2 then (if rate == 384000 then 14 else 7)
    else CycleLength(rate)
  }

  function Residues(n: int, rate: int): (t: seq<nat>)
    requires ScheduleDefined(n, rate)
    ensures Increasing(t) && AllBelow(t, Period(n, rate))
  {
    if n == 1 then (if ListedRate(rate) then [0] else [])
    else if n == 2 then
      if rate == 48000 then [0, 2, 4, 6]
      else if rate == 96000 then [0, 4]
      else if ListedRate(rate) then [0]
      else []
    else
      var t := Table(n, rate);
      WellSpreadInside(t, CycleLength(rate), |t|, MaxGap(n, rate));
      t
  }

  lemma FiresPattern(n: int, rate: int, count: nat)
    requires ScheduleDefined(n, rate)
    ensures Fires(n, rate, count) <==> count % Period(n, rate) in Residues(n, rate)
  {
    if n == 1 {
      if rate == 96000 {
        MaskIsMod(count, 2);
      } else if rate == 192000 {
        MaskIsMod(count, 4);
      } else if rate == 384000 {
        assert IsPow2(8) by { assert IsPow2(4); }
        MaskIsMod(count, 8);
      }
    } else if n >= 3 {
      SelectsTable(n, rate);
    } else if n == 2 {
      var k := count % 7;
      if rate == 48000 {
        MaskIsMod(k, 2);
      } else if rate == 96000 {
        MaskIsMod(k, 4);
      }
    }
  }

  /** How many of the counters from, from + 1, ..., from + len - 1 have their
      residue modulo p in t. */
  function ResidueCount(t: seq<nat>, p: nat, from: nat, len: nat): nat
    requires p >= 1
    decreases len
  {
    if len == 0 then 0
    else ResidueCount(t, p, from, len - 1) + (if (from + len - 1) % p in t then 1 else 0)
  }

  /** How many times SendTxIQ is called for the counters from .. from + len - 1. */
  function FireCount(n: int, rate: int, from: nat, len: nat): nat
    requires ScheduleDefined(n, rate)
    decreases len
  {
    if len == 0 then 0
    else FireCount(n, rate, from, len - 1) + (if Fires(n, rate, from + len - 1) then 1 else 0)
  }

  lemma {:induction false} FireCountByResidues(n: int, rate: int, from: nat, len: nat)
    requires ScheduleDefined(n, rate)
    ensures FireCount(n, rate, from, len)
            == ResidueCount(Residues(n, rate), Period(n, rate), from, len)
    decreases len
  {
    if len > 0 {
      FireCountByResidues(n, rate, from, len - 1);
      FiresPattern(n, rate, from + len - 1);
    }
  }

  lemma {:induction false} CountConcat(t: seq<nat>, p: nat, from: nat, a: nat, b: nat)
    requires p >= 1
    ensures ResidueCount(t, p, from, a + b)
            == ResidueCount(t, p, from, a) + ResidueCount(t, p, from + a, b)
    decreases b
  {
    if b > 0 {
      CountConcat(t, p, from, a, b - 1);
    }
  }

  /** A window of one period counts the same wherever it starts. */
  lemma {:induction false} CountShift(t: seq<nat>, p: nat, from: nat)
    requires p >= 1
    ensures ResidueCount(t, p, from, p) == ResidueCount(t, p, 0, p)
    decreases from
  {
    if from > 0 {
      var f := from - 1;
      CountShift(t, p, f);
      CountConcat(t, p, f, 1, p);
      CountConcat(t, p, f, p, 1);
      ModUnique(f + p, p, f / p + 1, f % p);
    }
  }

  /** The number of entries of t below x. */
  function Below(t: seq<nat>, x: nat): nat
    decreases |t|
  {
    if |t| == 0 then 0
    else Below(t[..|t| - 1], x) + (if t[|t| - 1] < x then 1 else 0)
  }

  lemma {:induction false} BelowStep(t: seq<nat>, x: nat)
    requires Increasing(t)
    ensures Below(t, x + 1) == Below(t, x) + (if x in t then 1 else 0)
    decreases |t|
  {
    if |t| > 0 {
      var u, l := t[..|t| - 1], t[|t| - 1];
      assert Increasing(u);
      BelowStep(u, x);
      assert t == u + [l];
      if l == x {
        UpperBound(u, l);
      }
    }
  }

  /** In an increasing sequence every entry but the last lies below the last. */
  lemma UpperBound(u: seq<nat>, l: nat)
    requires Increasing(u + [l])
    ensures l !in u
  {
    var t := u + [l];
    forall j | 0 <= j < |u|
      ensures u[j] != l
    {
      BelowLast(t, j + 1);
      assert t[j] < t[j + 1];
    }
  }

  lemma {:induction false} BelowAll(t: seq<nat>, p: nat)
    requires AllBelow(t, p)
    ensures Below(t, p) == |t|
    decreases |t|
  {
    if |t| > 0 {
      BelowAll(t[..|t| - 1], p);
    }
  }

  lemma {:induction false} CountFromZero(t: seq<nat>, p: nat, len: nat)
    requires p >= 1 && len <= p && Increasing(t)
    ensures ResidueCount(t, p, 0, len) == Below(t, len)
    decreases len
  {
    if len > 0 {
      var x := len - 1;
      CountFromZero(t, p, x);
      BelowStep(t, x);
      ModNear(x, p);
      assert ResidueCount(t, p, 0, len)
             == ResidueCount(t, p, 0, x) + (if x % p in t then 1 else 0);
    } else {
      BelowZero(t);
    }
  }

  lemma {:induction false} BelowZero(t: seq<nat>)
    ensures Below(t, 0) == 0
    decreases |t|
  {
    if |t| > 0 {
      BelowZero(t[..|t| - 1]);
    }
  }

  /** Any m consecutive periods count m times the residues. */
  lemma {:induction false} CountPeriods(t: seq<nat>, p: nat, from: nat, m: nat)
    requires p >= 1 && Increasing(t) && AllBelow(t, p)
    ensures ResidueCount(t, p, from, m * p) == m * |t|
    decreases m
  {
    if m > 0 {
      var a := (m - 1) * p;
      assert a + p == m * p;
      assert (m - 1) * |t| + |t| == m * |t|;
      CountConcat(t, p, from, a, p);
      CountPeriods(t, p, from, m - 1);
      CountShift(t, p, from + a);
      CountFromZero(t, p, p);
      BelowAll(t, p);
    }
  }

  /** Rate matching: over any CycleLength(rate) consecutive received frames,
      the frames that carry USBRowCount[n - 1] * CycleLength(rate) receive
      rows and so span the time Hermes needs to play out 63 transmit rows
      per USB frame for USBRowCount[n - 1] frames, SendTxIQ is called exactly
      USBRowCount[n - 1] times -- one more for three receivers above 48 kHz,
      whose vectors hold 26 indices. */
  lemma RateMatching(n: int, rate: int, from: nat)
    requires 1 <= n <= 7 && ListedRate(rate)
    ensures FireCount(n, rate, from, CycleLength(rate))
            == USBRowCount[n - 1] + (if n == 3 && rate != 48000 then 1 else 0)
  {
    var p, t := Period(n, rate), Residues(n, rate);
    FireCountByResidues(n, rate, from, CycleLength(rate));
    var m := PeriodsPerCycle(n, rate);
    CountPeriods(t, p, from, m);
  }

  /** A cycle of received frames is a whole number m of schedule periods,
      and m periods hold the number of sends RateMatching states. */
  lemma PeriodsPerCycle(n: int, rate: int) returns (m: nat)
    requires 1 <= n <= 7 && ListedRate(rate)
    ensures CycleLength(rate) == m * Period(n, rate)
    ensures m * |Residues(n, rate)|
            == USBRowCount[n - 1] + (if n == 3 && rate != 48000 then 1 else 0)
  {
    if n == 1 {
      m := 63;
    } else if n == 2 {
      m := if rate == 48000 then 9 else if rate == 96000 then 18 else 36;
    } else {
      m := 1;
    }
  }

  /** The first entry of an increasing t that is at least x. */
  function FirstAtLeast(t: seq<nat>, x: nat): (i: nat)
    requires Increasing(t) && |t| > 0 && x <= t[|t| - 1]
    ensures i < |t| && t[i] >= x && (i == 0 || t[i - 1] < x)
    decreases |t|
  {
    if |t| == 1 || t[|t| - 2] < x then |t| - 1
    else FirstAtLeast(t[..|t| - 1], x)
  }

  lemma {:induction false} FireCountPositive(n: int, rate: int, from: nat, len: nat, d: nat)
    requires ScheduleDefined(n, rate) && d < len && Fires(n, rate, from + d)
    ensures FireCount(n, rate, from, len) >= 1
    decreases len
  {
    if d < len - 1 {
      FireCountPositive(n, rate, from, len - 1, d);
    }
  }

  /** How far from `from` the next counter is whose residue modulo p lies
      in a well-spread t: less than the spacing g. */
  function NextHit(t: seq<nat>, p: nat, g: nat, from: nat): (d: nat)
    requires WellSpread(t, p, |t|, g)
    ensures d < g && (from + d) % p in t
  {
    var last := |t| - 1;
    var x := from % p;
    WellSpreadInside(t, p, |t|, g);
    if x <= t[last] then
      var i := FirstAtLeast(t, x);
      ModAdd(from, t[i] - x, p);
      ModNear(t[i], p);
      assert i > 0 ==> t[i - 1] < t[i] <= t[i - 1] + g;
      t[i] - x
    else
      ModAdd(from, t[0] + p - x, p);
      ModNear(t[0] + p, p);
      t[0] + p - x
  }

  /** Even spreading, counter by counter: with 3 .. 7 receivers, every run
      of MaxGap(n, rate) consecutive received frames, wherever it starts,
      triggers at least one transmit datagram, and so does every run of the
      uniform bound Spacing(n, SpeedFactor(rate)). */
  lemma SendWithin(n: int, rate: int, from: nat)
    requires 3 <= n <= 7 && ListedRate(rate)
    ensures FireCount(n, rate, from, MaxGap(n, rate)) >= 1
    ensures FireCount(n, rate, from, Spacing(n, SpeedFactor(rate))) >= 1
  {
    var t := Table(n, rate);
    assert Residues(n, rate) == t;
    HitWithin(n, rate, from, MaxGap(n, rate));
    FireCountGrows(n, rate, from, MaxGap(n, rate), Spacing(n, SpeedFactor(rate)));
  }

  lemma {:induction false} FireCountGrows(n: int, rate: int, from: nat, a: nat, b: nat)
    requires ScheduleDefined(n, rate) && a <= b
    ensures FireCount(n, rate, from, a) <= FireCount(n, rate, from, b)
    decreases b
  {
    if a < b {
      FireCountGrows(n, rate, from, a, b - 1);
    }
  }

  /** The largest gap is reached between the last send of one cycle and the
      first send of the next. */
  lemma WrapGap(n: int, rate: int)
    requires 3 <= n <= 7 && ListedRate(rate)
    ensures var t := Table(n, rate); t[0] + CycleLength(rate) - t[|t| - 1] == MaxGap(n, rate)
  {
    if n == 3 {
      WrapGap3(rate);
    } else if n == 4 {
      WrapGap4(rate);
    } else if n == 5 {
      WrapGap5(rate);
    } else if n == 6 {
      WrapGap6(rate);
    } else if n == 7 {
      WrapGap7(rate);
    }
  }

  lemma WrapGap3(rate: int)
    requires ListedRate(rate)
    ensures var t := Table(3, rate); t[0] + CycleLength(rate) - t[|t| - 1] == MaxGap(3, rate)
  {
    if rate == 48000 {
      assert Table(3, rate) == L3_48;
      Vector3_48();
    } else if rate == 96000 {
      assert Table(3, rate) == L3_96;
      Vector3_96();
    } else if rate == 192000 {
      assert Table(3, rate) == L3_192;
      Vector3_192();
    } else {
      assert Table(3, rate) == L3_384;
      Vector3_384();
    }
  }

  lemma WrapGap4(rate: int)
    requires ListedRate(rate)
    ensures var t := Table(4, rate); t[0] + CycleLength(rate) - t[|t| - 1] == MaxGap(4, rate)
  {
    if rate == 48000 {
      assert Table(4, rate) == L4_48;
      Vector4_48();
    } else if rate == 96000 {
      assert Table(4, rate) == L4_96;
      Vector4_96();
    } else if rate == 192000 {
      assert Table(4, rate) == L4_192;
      Vector4_192();
    } else {
      assert Table(4, rate) == L4_384;
      Vector4_384();
    }
  }

  lemma WrapGap5(rate: int)
    requires ListedRate(rate)
    ensures var t := Table(5, rate); t[0] + CycleLength(rate) - t[|t| - 1] == MaxGap(5, rate)
  {
    if rate == 48000 {
      assert Table(5, rate) == L5_48;
      Vector5_48();
    } else if rate == 96000 {
      assert Table(5, rate) == L5_96;
      Vector5_96();
    } else if rate == 192000 {
      assert Table(5, rate) == L5_192;
      Vector5_192();
    } else {
      assert Table(5, rate) == L5_384;
      Vector5_384();
    }
  }

  lemma WrapGap6(rate: int)
    requires ListedRate(rate)
    ensures var t := Table(6, rate); t[0] + CycleLength(rate) - t[|t| - 1] == MaxGap(6, rate)
  {
    if rate == 48000 {
      assert Table(6, rate) == L6_48;
      Vector6_48();
    } else if rate == 96000 {
      assert Table(6, rate) == L6_96;
      Vector6_96();
    } else if rate == 192000 {
      assert Table(6, rate) == L6_192;
      Vector6_192();
    } else {
      assert Table(6, rate) == L6_384;
      Vector6_384();
    }
  }

  lemma WrapGap7(rate: int)
    requires ListedRate(rate)
    ensures var t := Table(7, rate); t[0] + CycleLength(rate) - t[|t| - 1] == MaxGap(7, rate)
  {
    if rate == 48000 {
      assert Table(7, rate) == L7_48;
      Vector7_48();
    } else if rate == 96000 {
      assert Table(7, rate) == L7_96;
      Vector7_96();
    } else if rate == 192000 {
      assert Table(7, rate) == L7_192;
      Vector7_192();
    } else {
      assert Table(7, rate) == L7_384;
      Vector7_384();
    }
  }

  /** MaxGap is the best such bound: the MaxGap(n, rate) - 1 frames after
      the last send of a cycle trigger no transmit datagram. */
  lemma SendGapTight(n: int, rate: int) returns (from: nat)
    requires 3 <= n <= 7 && ListedRate(rate)
    ensures FireCount(n, rate, from, MaxGap(n, rate) - 1) == 0
  {
    var t, c := Table(n, rate), CycleLength(rate);
    var last := |t| - 1;
    WellSpreadInside(t, c, |t|, MaxGap(n, rate));
    WrapGap(n, rate);
    from := t[last] + 1;
    forall y | from <= y < from + MaxGap(n, rate) - 1
      ensures !Fires(n, rate, y)
    {
      ModNear(y, c);
      forall j | 0 <= j < |t|
        ensures t[j] != y % c
      {
        BelowLast(t, j);
        AboveFirst(t, j);
      }
      FiresPattern(n, rate, y);
    }
    FireCountZero(n, rate, from, MaxGap(n, rate) - 1);
  }

  lemma {:induction false} AboveFirst(t: seq<nat>, i: nat)
    requires Increasing(t) && i < |t|
    ensures t[0] <= t[i]
    decreases i
  {
    if i > 0 {
      AboveFirst(t, i - 1);
    }
  }

  lemma {:induction false} FireCountZero(n: int, rate: int, from: nat, len: nat)
    requires ScheduleDefined(n, rate)
    requires forall k :: from <= k < from + len ==> !Fires(n, rate, k)
    ensures FireCount(n, rate, from, len) == 0
    decreases len
  {
    if len > 0 {
      FireCountZero(n, rate, from, len - 1);
    }
  }

  lemma HitWithin(n: int, rate: int, from: nat, g: nat)
    requires ScheduleDefined(n, rate)
    requires WellSpread(Residues(n, rate), Period(n, rate), |Residues(n, rate)|, g)
    ensures FireCount(n, rate, from, g) >= 1
  {
    var d := NextHit(Residues(n, rate), Period(n, rate), g, from);
    FiresPattern(n, rate, from + d);
    FireCountPositive(n, rate, from, g, d);
  }

  /** With one or two receivers and a rate that is not listed, nothing is
      ever sent. */
  lemma UnlistedRateNeverSends(n: int, rate: int, count: nat)
    requires (n == 1 || n == 2) && !ListedRate(rate)
    ensures !Fires(n, rate, count)
  {
  }
}
