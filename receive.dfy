/**
 * The receive side of the HPSDR USB-over-Ethernet format as ReceiveRxIQ
 * reads it.  A datagram from Hermes is an 8-byte Ethernet header, whose
 * bytes 4 .. 7 hold a big-endian sequence number, followed by two 512-byte
 * USB frames.  Each USB frame starts with the sync bytes 7F 7F 7F and five
 * control bytes C0 .. C4, then holds USBRowCount[N - 1] rows of N pairs of
 * 24-bit big-endian two's-complement samples (I, then Q) and two microphone
 * bytes.
 */
module Receive {
  import opened Bits
  import opened HermesConfig
  import Schedule

  /** The datagram as the transport hands it over: header and two frames. */
  const DatagramSize: nat := 8 + 2 * 512

  /** Where the two USB frames start, and where their samples start. */
  const FrameStart: seq<nat> := [8, 520]
  const SampleStart: seq<nat> := [16, 528]

  // ---------------------------------------------------------------- samples

  /** The unsigned value of three big-endian bytes. */
  function U24(b0: Byte, b1: Byte, b2: Byte): (u: nat)
    ensures u < 16777216
  {
    b0 as nat * 65536 + b1 as nat * 256 + b2 as nat
  }

  /** The integer Unpack2C divides by 8388607.0: zero while the receiver is
      muted, otherwise the 24-bit two's-complement value of the bytes. */
  function Unpack2C(c: Config, b0: Byte, b1: Byte, b2: Byte): (v: int)
    ensures RxMuted(c) ==> v == 0
    ensures !RxMuted(c) ==> -8388608 <= v < 8388608 && (v - U24(b0, b1, b2)) % 16777216 == 0
  {
    if RxMuted(c) then 0
    else SignedChar(b0) * 65536 + b1 as int * 256 + b2 as int
  }

  /** The three bytes Hermes sends for a 24-bit sample v. */
  function Pack24(v: int): (b: seq<Byte>)
    requires -8388608 <= v < 8388608
    ensures |b| == 3
  {
    var u := v % 16777216;
    [(u / 65536) as bv8, ((u / 256) % 256) as bv8, (u % 256) as bv8]
  }

  /** A value below 2^24 is its three bytes, most significant first. */
  lemma SplitU24(u: nat)
    requires u < 16777216
    ensures u / 65536 < 256
    ensures u == (u / 65536) * 65536 + ((u / 256) % 256) * 256 + u % 256
  {
    var q := u / 256;
    ModUnique(u, 256, q, u % 256);
    ModUnique(q, 256, q / 256, q % 256);
    assert u == (q / 256) * 65536 + (q % 256) * 256 + u % 256;
    ModUnique(u, 65536, q / 256, (q % 256) * 256 + u % 256);
  }

  /** The bytes of Pack24(v) are those of v modulo 2^24. */
  lemma Pack24Bytes(v: int)
    requires -8388608 <= v < 8388608
    ensures var u, b := v % 16777216, Pack24(v);
            && b[0] as int == u / 65536 && b[1] as int == (u / 256) % 256 && b[2] as int == u % 256
            && u == U24(b[0], b[1], b[2])
  {
    var u := v % 16777216;
    SplitU24(u);
    ByteOf(u / 65536);
    ByteOf((u / 256) % 256);
    ByteOf(u % 256);
  }

  /** Two's complement: the unsigned value, less 2^24 when the top bit is set. */
  lemma Unpack2CValue(c: Config, b0: Byte, b1: Byte, b2: Byte)
    requires !RxMuted(c)
    ensures Unpack2C(c, b0, b1, b2)
            == U24(b0, b1, b2) - (if b0 as int >= 128 then 16777216 else 0)
  {
    var s := SignedChar(b0);
    assert s == b0 as int - (if b0 as int >= 128 then 256 else 0);
    assert s * 65536 == b0 as int * 65536 - (if b0 as int >= 128 then 16777216 else 0);
  }

  lemma Unpack2CInvertsPack24(c: Config, v: int)
    requires !RxMuted(c) && -8388608 <= v < 8388608
    ensures var b := Pack24(v); Unpack2C(c, b[0], b[1], b[2]) == v
  {
    var b := Pack24(v);
    Pack24Bytes(v);
    ModNear(v, 16777216);
    Unpack2CValue(c, b[0], b[1], b[2]);
  }

  /** The byte split of a 24-bit two's-complement value, on integers. */
  lemma SplitSigned24(v: int, x0: int, x1: int, x2: int)
    requires 0 <= x0 < 256 && 0 <= x1 < 256 && 0 <= x2 < 256
    requires v == x0 * 65536 + x1 * 256 + x2 - (if x0 >= 128 then 16777216 else 0)
    ensures var u := v % 16777216;
            u / 65536 == x0 && (u / 256) % 256 == x1 && u % 256 == x2
  {
    var u := x0 * 65536 + x1 * 256 + x2;
    ModNear(v, 16777216);
    assert v % 16777216 == u;
    ModUnique(u, 65536, x0, x1 * 256 + x2);
    ModUnique(u, 256, x0 * 256 + x1, x2);
    ModUnique(x0 * 256 + x1, 256, x0, x1);
  }

  lemma Pack24InvertsUnpack2C(c: Config, b0: Byte, b1: Byte, b2: Byte)
    requires !RxMuted(c)
    ensures Pack24(Unpack2C(c, b0, b1, b2)) == [b0, b1, b2]
  {
    var v := Unpack2C(c, b0, b1, b2);
    Unpack2CValue(c, b0, b1, b2);
    SplitSigned24(v, b0 as int, b1 as int, b2 as int);
    var x := v % 16777216;
    ToByte(x / 65536, b0);
    ToByte((x / 256) % 256, b1);
    ToByte(x % 256, b2);
  }

  /** The full-scale and zero samples. */
  lemma Unpack2CExamples(c: Config)
    requires !RxMuted(c)
    ensures Unpack2C(c, 0x7F, 0xFF, 0xFF) == 8388607
    ensures Unpack2C(c, 0x80, 0x00, 0x00) == -8388608
    ensures Unpack2C(c, 0xFF, 0xFF, 0xFF) == -1
    ensures Unpack2C(c, 0x00, 0x00, 0x00) == 0
  {
  }

  // ------------------------------------------------------------- sequencing

  function SequenceNumber(dg: seq<Byte>): (n: nat)
    requires |dg| >= 8
    ensures n < 0x1_0000_0000
  {
    BE32Value(dg[4], dg[5], dg[6], dg[7])
  }

  /** CurrentEthSeqNum and LostEthernetRx. */
  datatype SeqTrack = SeqTrack(cur: nat, lost: nat)

  /** The update ReceiveRxIQ makes for an arriving sequence number. */
  function Track(t: SeqTrack, s: nat): SeqTrack
  {
    if s > t.cur + 1 then SeqTrack(s, t.lost + (s - t.cur))
    else if s == t.cur + 1 then SeqTrack(t.cur + 1, t.lost)
    else t
  }

  function TrackAll(t: SeqTrack, ss: seq<nat>): SeqTrack
    decreases |ss|
  {
    if |ss| == 0 then t else TrackAll(Track(t, ss[0]), ss[1..])
  }

  /** The largest of m and the entries of ss. */
  function MaxOf(m: nat, ss: seq<nat>): (r: nat)
    ensures r >= m && forall i :: 0 <= i < |ss| ==> r >= ss[i]
    ensures r == m || exists i :: 0 <= i < |ss| && r == ss[i]
    decreases |ss|
  {
    if |ss| == 0 then m
    else MaxOf(if ss[0] > m then ss[0] else m, ss[1..])
  }

  /** How many arrivals move the current number on by exactly one, and by
      more than one, starting from cur. */
  function Steps(cur: nat, ss: seq<nat>): nat
    decreases |ss|
  {
    if |ss| == 0 then 0
    else (if ss[0] == cur + 1 then 1 else 0) + Steps(if ss[0] > cur then ss[0] else cur, ss[1..])
  }

  function Gaps(cur: nat, ss: seq<nat>): nat
    decreases |ss|
  {
    if |ss| == 0 then 0
    else (if ss[0] > cur + 1 then 1 else 0) + Gaps(if ss[0] > cur then ss[0] else cur, ss[1..])
  }

  /** Over any run of arrivals the current number becomes the largest
      number seen, and stale or repeated numbers are ignored.  A number one
      past the current one costs nothing; any larger jump adds its whole
      difference to LostEthernetRx -- one more than the datagrams skipped --
      so a gap always counts at least 2. */
  lemma {:induction false} TrackAllSpec(t: SeqTrack, ss: seq<nat>)
    ensures TrackAll(t, ss).cur == MaxOf(t.cur, ss)
    ensures TrackAll(t, ss).lost + Steps(t.cur, ss) == t.lost + (TrackAll(t, ss).cur - t.cur)
    ensures TrackAll(t, ss).lost >= t.lost + 2 * Gaps(t.cur, ss)
    ensures Gaps(t.cur, ss) == 0 ==> TrackAll(t, ss).lost == t.lost
    decreases |ss|
  {
    if |ss| > 0 {
      TrackAllSpec(Track(t, ss[0]), ss[1..]);
    }
  }

  /** In particular, an in-order stream loses nothing. */
  lemma {:induction false} InOrderLosesNothing(t: SeqTrack, k: nat)
    ensures TrackAll(t, Consecutive(t.cur + 1, k)) == SeqTrack(t.cur + k, t.lost)
    decreases k
  {
    if k > 0 {
      assert Consecutive(t.cur + 1, k)[1..] == Consecutive(t.cur + 2, k - 1);
      InOrderLosesNothing(SeqTrack(t.cur + 1, t.lost), k - 1);
    }
  }

  /** from, from + 1, ..., from + k - 1 */
  function Consecutive(from: nat, k: nat): (ss: seq<nat>)
    ensures |ss| == k && forall i :: 0 <= i < k ==> ss[i] == from + i
    decreases k
  {
    if k == 0 then [] else [from] + Consecutive(from + 1, k - 1)
  }

  // ------------------------------------------------------------ sync, status

  predicate SyncOK(dg: seq<Byte>, at: nat)
    requires at + 3 <= |dg|
  {
    dg[at] == 0x7F && dg[at + 1] == 0x7F && dg[at + 2] == 0x7F
  }

  /** The status update for the control bytes C0 .. C4 of one USB frame:
      C0 & 0xF8 selects the bank; unknown banks change nothing. */
  function DecodeStatus(st: Status, c: seq<Byte>): (r: Status)
    requires |c| == 5
    ensures (c[0] & 0xF8) !in {0x00, 0x08, 0x10, 0x18} ==> r == st
  {
    var bank := c[0] & 0xF8;
    if bank == 0x00 then st.(ADCoverload := c[1] & 0x01 != 0, HermesVersion := c[4])
    else if bank == 0x08 then
      st.(AIN5 := c[1] as nat * 256 + c[2] as nat, AIN1 := c[3] as nat * 256 + c[4] as nat)
    else if bank == 0x10 then
      st.(AIN2 := c[1] as nat * 256 + c[2] as nat, AIN3 := c[3] as nat * 256 + c[4] as nat)
    else if bank == 0x18 then
      st.(AIN4 := c[1] as nat * 256 + c[2] as nat, AIN6 := c[3] as nat * 256 + c[4] as nat)
    else st
  }

  /** The status bytes Hermes sends for bank k (0 .. 3) of a status s, with
      the low three bits of C0 (PTT, dash, dot) set to low. */
  function StatusBytes(k: nat, s: Status, low: Byte): (c: seq<Byte>)
    requires k < 4
    ensures |c| == 5
  {
    var c0 := ((k * 8) as bv8) | (low & 0x07);
    if k == 0 then [c0, if s.ADCoverload then 1 else 0, 0, 0, s.HermesVersion]
    else if k == 1 then [c0] + Word16(s.AIN5) + Word16(s.AIN1)
    else if k == 2 then [c0] + Word16(s.AIN2) + Word16(s.AIN3)
    else [c0] + Word16(s.AIN4) + Word16(s.AIN6)
  }

  function Word16(v: nat): seq<Byte>
  {
    [((v / 256) % 256) as bv8, (v % 256) as bv8]
  }

  predicate InputsFit(s: Status)
  {
    s.AIN1 < 65536 && s.AIN2 < 65536 && s.AIN3 < 65536
    && s.AIN4 < 65536 && s.AIN5 < 65536 && s.AIN6 < 65536
  }

  lemma Word16Value(v: nat)
    requires v < 65536
    ensures Word16(v)[0] as nat * 256 + Word16(v)[1] as nat == v
  {
    ByteOf((v / 256) % 256);
    ByteOf(v % 256);
    assert v == (v / 256) * 256 + v % 256;
    assert (v / 256) % 256 == v / 256;
  }

  lemma BankSelector(k: nat, low: Byte)
    requires k < 4
    ensures (((k * 8) as bv8) | (low & 0x07)) & 0xF8 == [0x00, 0x08, 0x10, 0x18][k]
  {
  }

  /** Decoding what Hermes sends for a bank takes over exactly that bank's
      fields and keeps every other field. */
  lemma StatusRoundTrip(st: Status, s: Status, k: nat, low: Byte)
    requires k < 4 && InputsFit(s)
    ensures var r := DecodeStatus(st, StatusBytes(k, s, low));
            && (k == 0 ==> r == st.(ADCoverload := s.ADCoverload, HermesVersion := s.HermesVersion))
            && (k == 1 ==> r == st.(AIN5 := s.AIN5, AIN1 := s.AIN1))
            && (k == 2 ==> r == st.(AIN2 := s.AIN2, AIN3 := s.AIN3))
            && (k == 3 ==> r == st.(AIN4 := s.AIN4, AIN6 := s.AIN6))
  {
    BankSelector(k, low);
    if k == 0 {
      assert StatusBytes(k, s, low)[0] & 0xF8 == 0x00;
    } else {
      WordsDecode(st, s, k, low);
    }
  }

  /** Banks 1 .. 3 carry two of the analog inputs as 16-bit words. */
  lemma WordsDecode(st: Status, s: Status, k: nat, low: Byte)
    requires 1 <= k < 4 && InputsFit(s)
    ensures var r := DecodeStatus(st, StatusBytes(k, s, low));
            && (k == 1 ==> r == st.(AIN5 := s.AIN5, AIN1 := s.AIN1))
            && (k == 2 ==> r == st.(AIN2 := s.AIN2, AIN3 := s.AIN3))
            && (k == 3 ==> r == st.(AIN4 := s.AIN4, AIN6 := s.AIN6))
  {
    BankSelector(k, low);
    var c := StatusBytes(k, s, low);
    var hi, lo := if k == 1 then s.AIN5 else if k == 2 then s.AIN2 else s.AIN4,
                  if k == 1 then s.AIN1 else if k == 2 then s.AIN3 else s.AIN6;
    WordPair(c, hi, lo);
  }

  /** Bytes 1 .. 4 of a status frame holding two 16-bit words give the words
      back. */
  lemma WordPair(c: seq<Byte>, hi: nat, lo: nat)
    requires hi < 65536 && lo < 65536 && |c| == 5 && c[1..3] == Word16(hi) && c[3..] == Word16(lo)
    ensures c[1] as nat * 256 + c[2] as nat == hi && c[3] as nat * 256 + c[4] as nat == lo
  {
    Word16Value(hi);
    Word16Value(lo);
    assert c[1] == Word16(hi)[0] && c[2] == Word16(hi)[1];
    assert c[3] == Word16(lo)[0] && c[4] == Word16(lo)[1];
  }

  // ---------------------------------------------------------------- layout

  /** The rows of a USB frame for n receivers. */
  function Rows(n: int): (rows: nat)
    requires 1 <= n <= 8
    ensures 10 <= rows <= 63
  {
    Schedule.USBRowCount[n - 1]
  }

  /** 3-byte I and Q for each of n receivers, then two microphone bytes. */
  function RowBytes(n: nat): nat
  {
    6 * n + 2
  }

  /** The number of values one USB frame unpacks into: I and Q for each
      receiver in each row. */
  function FrameValues(n: int): (k: nat)
    requires 1 <= n <= 8
    ensures k <= 160
  {
    2 * (Rows(n) * n)
  }

  /** Where row k starts: its first byte after the frame's first sample
      byte, and its first value in the receive buffer. */
  function RowStart(n: nat, k: nat): nat
    decreases k
  {
    if k == 0 then 0 else RowStart(n, k - 1) + RowBytes(n)
  }

  function ValueStart(n: nat, k: nat): nat
    decreases k
  {
    if k == 0 then 0 else ValueStart(n, k - 1) + 2 * n
  }

  lemma {:induction false} RowStartIs(n: nat, k: nat)
    ensures RowStart(n, k) == k * RowBytes(n) && ValueStart(n, k) == 2 * (k * n)
    decreases k
  {
    if k > 0 {
      RowStartIs(n, k - 1);
      assert (k - 1) * RowBytes(n) + RowBytes(n) == k * RowBytes(n);
      assert 2 * ((k - 1) * n) + 2 * n == 2 * (k * n);
    }
  }

  lemma {:induction false} StartsGrow(n: nat, k: nat, m: nat)
    requires k <= m
    ensures RowStart(n, k) <= RowStart(n, m) && ValueStart(n, k) <= ValueStart(n, m)
    decreases m
  {
    if k < m {
      StartsGrow(n, k, m - 1);
    }
  }

  /** All rows of a frame fit in its 504 sample bytes, and they hold
      FrameValues(n) values. */
  lemma FrameFits(n: int)
    requires 1 <= n <= 8
    ensures RowStart(n, Rows(n)) <= 504
    ensures ValueStart(n, Rows(n)) == FrameValues(n)
  {
    if n == 1 { FitsWith(1, 63); }
    else if n == 2 { FitsWith(2, 36); }
    else if n == 3 { FitsWith(3, 25); }
    else if n == 4 { FitsWith(4, 19); }
    else if n == 5 { FitsWith(5, 15); }
    else if n == 6 { FitsWith(6, 13); }
    else if n == 7 { FitsWith(7, 11); }
    else { FitsWith(8, 10); }
  }

  lemma FitsWith(n: int, rows: nat)
    requires 1 <= n <= 8 && Rows(n) == rows && rows * RowBytes(n) <= 504
    ensures RowStart(n, Rows(n)) <= 504 && ValueStart(n, Rows(n)) == FrameValues(n)
  {
    RowStartIs(n, rows);
  }

  /** Row k ends inside the frame's sample bytes and its values inside the
      frame's values. */
  lemma RowInside(n: int, k: nat)
    requires 1 <= n <= 8 && k < Rows(n)
    ensures RowStart(n, k) + RowBytes(n) <= 504
    ensures ValueStart(n, k) + 2 * n <= ValueStart(n, Rows(n))
  {
    StartsGrow(n, k + 1, Rows(n));
    FrameFits(n);
  }

  /** The byte offsets of the I and Q samples of the first r receivers of a
      row whose samples start at offset o: 6 bytes per receiver, I first. */
  function RowLayout(o: nat, r: nat): (l: seq<nat>)
    ensures |l| == 2 * r
    decreases r
  {
    if r == 0 then [] else RowLayout(o, r - 1) + [o + 6 * (r - 1), o + 6 * (r - 1) + 3]
  }

  /** The byte offsets, counted from a frame's first sample byte, of the
      values of its first k rows, in the order the receive loop stores
      them; the two microphone bytes that end each row are skipped. */
  function Layout(n: nat, k: nat): (l: seq<nat>)
    ensures |l| == ValueStart(n, k)
    decreases k
  {
    if k == 0 then [] else Layout(n, k - 1) + RowLayout(RowStart(n, k - 1), n)
  }

  /** Every sample of the first k rows ends before row k starts. */
  lemma {:induction false} LayoutInside(n: nat, k: nat, j: nat)
    requires j < ValueStart(n, k)
    ensures Layout(n, k)[j] + 3 <= RowStart(n, k)
    decreases k
  {
    var front := Layout(n, k - 1);
    if j < |front| {
      LayoutInside(n, k - 1, j);
    } else {
      RowLayoutInside(RowStart(n, k - 1), n, j - |front|);
    }
  }

  lemma {:induction false} RowLayoutInside(o: nat, r: nat, j: nat)
    requires j < 2 * r
    ensures o <= RowLayout(o, r)[j] && RowLayout(o, r)[j] + 3 <= o + 6 * r
    decreases r
  {
    if j < 2 * r - 2 {
      RowLayoutInside(o, r - 1, j);
    }
  }

  /** The samples of a whole frame lie in its 504 sample bytes. */
  lemma FrameInside(dg: seq<Byte>, at: nat, n: int)
    requires 1 <= n <= 8 && at + 504 <= |dg|
    ensures Inside(dg, at, Layout(n, Rows(n)))
  {
    FrameFits(n);
    LayoutFits(dg, at, n, Rows(n));
  }

  lemma LayoutFits(dg: seq<Byte>, at: nat, n: nat, k: nat)
    requires at + RowStart(n, k) <= |dg|
    ensures Inside(dg, at, Layout(n, k))
  {
    forall j | 0 <= j < ValueStart(n, k)
      ensures at + Layout(n, k)[j] + 3 <= |dg|
    {
      LayoutInside(n, k, j);
    }
  }

  /** The 24-bit sample whose first byte is byte o of the datagram. */
  function Sample(c: Config, dg: seq<Byte>, o: nat): int
    requires o + 3 <= |dg|
  {
    Unpack2C(c, dg[o], dg[o + 1], dg[o + 2])
  }

  predicate Inside(dg: seq<Byte>, at: nat, offs: seq<nat>)
  {
    forall j :: 0 <= j < |offs| ==> at + offs[j] + 3 <= |dg|
  }

  /** The samples at offsets offs from byte `at`, in order. */
  function Decode(c: Config, dg: seq<Byte>, at: nat, offs: seq<nat>): (s: seq<int>)
    requires Inside(dg, at, offs)
    ensures |s| == |offs|
    decreases |offs|
  {
    if |offs| == 0 then []
    else Decode(c, dg, at, offs[..|offs| - 1]) + [Sample(c, dg, at + offs[|offs| - 1])]
  }

  lemma {:induction false} DecodeAt(c: Config, dg: seq<Byte>, at: nat, offs: seq<nat>, j: nat)
    requires Inside(dg, at, offs) && j < |offs|
    ensures Decode(c, dg, at, offs)[j] == Sample(c, dg, at + offs[j])
    decreases |offs|
  {
    if j < |offs| - 1 {
      DecodeAt(c, dg, at, offs[..|offs| - 1], j);
    }
  }

  lemma {:induction false} DecodeAppend(c: Config, dg: seq<Byte>, at: nat, a: seq<nat>, b: seq<nat>)
    requires Inside(dg, at, a) && Inside(dg, at, b)
    ensures Inside(dg, at, a + b)
    ensures Decode(c, dg, at, a + b) == Decode(c, dg, at, a) + Decode(c, dg, at, b)
    decreases |b|
  {
    if |b| == 0 {
      assert a + b == a;
    } else {
      var b' := b[..|b| - 1];
      assert (a + b)[..|a + b| - 1] == a + b';
      assert Inside(dg, at, b') by {
        forall j | 0 <= j < |b'|
          ensures at + b'[j] + 3 <= |dg|
        {
          assert b'[j] == b[j];
        }
      }
      DecodeAppend(c, dg, at, a, b');
      assert Inside(dg, at, a + b) by {
        forall j | 0 <= j < |a + b|
          ensures at + (a + b)[j] + 3 <= |dg|
        {
          if j < |a| {
            assert (a + b)[j] == a[j];
          } else {
            assert (a + b)[j] == b[j - |a|];
          }
        }
      }
    }
  }

  /** The values ReceiveRxIQ stores for that frame. */
  function FrameSamples(c: Config, dg: seq<Byte>, at: nat): (s: seq<int>)
    requires 1 <= c.NumReceivers <= 8 && at + 504 <= |dg|
    ensures |s| == FrameValues(c.NumReceivers)
  {
    FrameFits(c.NumReceivers);
    FrameInside(dg, at, c.NumReceivers);
    Decode(c, dg, at, Layout(c.NumReceivers, Rows(c.NumReceivers)))
  }

  /** Value i of row k among the first `rows` rows. */
  lemma {:induction false} LayoutAt(n: nat, rows: nat, k: nat, i: nat)
    requires k < rows && i < 2 * n
    ensures ValueStart(n, k) + i < ValueStart(n, rows)
    ensures Layout(n, rows)[ValueStart(n, k) + i] == RowLayout(RowStart(n, k), n)[i]
    decreases rows
  {
    StartsGrow(n, k + 1, rows);
    if k < rows - 1 {
      LayoutAt(n, rows - 1, k, i);
    }
  }

  /** Receiver r of a row: I at value 2 r, Q right after it, 6 r bytes in. */
  lemma {:induction false} RowLayoutAt(o: nat, r: nat, i: nat)
    requires i < r
    ensures RowLayout(o, r)[2 * i] == o + 6 * i && RowLayout(o, r)[2 * i + 1] == o + 6 * i + 3
    decreases r
  {
    if i < r - 1 {
      RowLayoutAt(o, r - 1, i);
    }
  }

  /** Receiver r of row k among the first `rows` rows: its I sample starts
      6 r bytes into the row and its Q sample 3 bytes later. */
  lemma ReceiverLayout(n: nat, rows: nat, k: nat, r: nat, v: nat)
    requires k < rows && r < n && v == ValueStart(n, k) + 2 * r
    ensures v + 1 < ValueStart(n, rows)
    ensures Layout(n, rows)[v] == RowStart(n, k) + 6 * r
    ensures Layout(n, rows)[v + 1] == RowStart(n, k) + 6 * r + 3
  {
    LayoutAt(n, rows, k, 2 * r);
    LayoutAt(n, rows, k, 2 * r + 1);
    RowLayoutAt(RowStart(n, k), n, r);
  }

  /** Item k of receiver r's output stream, as general_work takes it from a
      buffer filled by FrameSamples: the I and Q samples of receiver r in
      row k of the frame, which start o = RowStart(N, k) + 6 r bytes into
      the frame, are values v = ValueStart(N, k) + 2 r and v + 1. */
  lemma ReceiverSample(c: Config, dg: seq<Byte>, at: nat, k: nat, r: nat, o: nat, v: nat)
    requires 1 <= c.NumReceivers <= 8 && at + 504 <= |dg|
    requires k < Rows(c.NumReceivers) && r < c.NumReceivers
    requires o == at + RowStart(c.NumReceivers, k) + 6 * r && v == ValueStart(c.NumReceivers, k) + 2 * r
    ensures o + 6 <= at + 504
    ensures v + 1 < FrameValues(c.NumReceivers)
    ensures PairAt(c, dg, FrameSamples(c, dg, at), v, o)
  {
    var n := c.NumReceivers;
    FrameFits(n);
    FrameInside(dg, at, n);
    RowInside(n, k);
    LayoutSample(c, dg, at, n, Rows(n), k, r, o, v);
  }

  /** Receiver r of row k of s, a frame's values: its I and Q samples start
      RowStart(N, k) + 6 r bytes into the frame. */
  predicate ReceiverAt(c: Config, dg: seq<Byte>, at: nat, s: seq<int>, k: nat, r: nat)
  {
    var n := c.NumReceivers;
    n >= 0 && PairAt(c, dg, s, ValueStart(n, k) + 2 * r, at + RowStart(n, k) + 6 * r)
  }

  /** s holds, for every row and every receiver, the I and Q samples of that
      receiver in that row of the frame at byte `at`, and nothing else. */
  predicate LaidOut(c: Config, dg: seq<Byte>, at: nat, s: seq<int>)
  {
    && 1 <= c.NumReceivers <= 8 && at + 504 <= |dg| && |s| == FrameValues(c.NumReceivers)
    && forall k, r :: 0 <= k < Rows(c.NumReceivers) && 0 <= r < c.NumReceivers ==>
         ReceiverAt(c, dg, at, s, k, r)
  }

  /** The values ReceiveRxIQ stores for a frame are laid out that way. */
  lemma FrameLaidOut(c: Config, dg: seq<Byte>, at: nat)
    requires 1 <= c.NumReceivers <= 8 && at + 504 <= |dg|
    ensures LaidOut(c, dg, at, FrameSamples(c, dg, at))
  {
    var n := c.NumReceivers;
    forall k, r | 0 <= k < Rows(n) && 0 <= r < n
      ensures ReceiverAt(c, dg, at, FrameSamples(c, dg, at), k, r)
    {
      ReceiverSample(c, dg, at, k, r, at + RowStart(n, k) + 6 * r, ValueStart(n, k) + 2 * r);
    }
  }

  /** Some sequence of values, namely FrameSamples, is laid out as a frame. */
  lemma SomeLaidOut(c: Config, dg: seq<Byte>, at: nat) returns (s: seq<int>)
    requires 1 <= c.NumReceivers <= 8 && at + 504 <= |dg|
    ensures LaidOut(c, dg, at, s)
  {
    s := FrameSamples(c, dg, at);
    FrameLaidOut(c, dg, at);
  }

  /** Every value index of the first `rows` rows belongs to some receiver
      r of some row k: it is that receiver's I or its Q value. */
  lemma {:induction false} Covered(n: nat, rows: nat, j: nat) returns (k: nat, r: nat)
    requires j < ValueStart(n, rows)
    ensures k < rows && r < n
    ensures j == ValueStart(n, k) + 2 * r || j == ValueStart(n, k) + 2 * r + 1
    decreases rows
  {
    if j < ValueStart(n, rows - 1) {
      k, r := Covered(n, rows - 1, j);
      StartsGrow(n, k + 1, rows - 1);
    } else {
      k := rows - 1;
      r := (j - ValueStart(n, k)) / 2;
    }
  }

  /** A frame is laid out in one way only. */
  lemma LaidOutUnique(c: Config, dg: seq<Byte>, at: nat, s: seq<int>, t: seq<int>)
    requires LaidOut(c, dg, at, s) && LaidOut(c, dg, at, t)
    ensures s == t
  {
    var n := c.NumReceivers;
    FrameFits(n);
    forall j | 0 <= j < |s|
      ensures s[j] == t[j]
    {
      var k, r := Covered(n, Rows(n), j);
      assert ReceiverAt(c, dg, at, s, k, r) && ReceiverAt(c, dg, at, t, k, r);
    }
  }

  /** So the laid-out values of a frame are exactly the ones FrameSamples
      decodes. */
  lemma LaidOutIsFrame(c: Config, dg: seq<Byte>, at: nat, s: seq<int>)
    requires 1 <= c.NumReceivers <= 8 && at + 504 <= |dg|
    ensures LaidOut(c, dg, at, s) <==> s == FrameSamples(c, dg, at)
  {
    FrameLaidOut(c, dg, at);
    if LaidOut(c, dg, at, s) {
      LaidOutUnique(c, dg, at, s, FrameSamples(c, dg, at));
    }
  }

  /** Row k of a laid-out frame as UnpackRow stores it: its samples start at
      byte p of the datagram and its values at index v. */
  lemma RowValues(c: Config, dg: seq<Byte>, at: nat, s: seq<int>, k: nat, p: nat, v: nat)
    requires LaidOut(c, dg, at, s) && k < Rows(c.NumReceivers)
    requires p == at + RowStart(c.NumReceivers, k) && v == ValueStart(c.NumReceivers, k)
    ensures p + RowBytes(c.NumReceivers) <= at + 504
    ensures v + 2 * c.NumReceivers <= |s|
    ensures forall r :: 0 <= r < c.NumReceivers ==> PairAt(c, dg, s, v + 2 * r, p + 6 * r)
  {
    RowInside(c.NumReceivers, k);
    FrameFits(c.NumReceivers);
    forall r | 0 <= r < c.NumReceivers
      ensures PairAt(c, dg, s, v + 2 * r, p + 6 * r)
    {
      assert ReceiverAt(c, dg, at, s, k, r);
    }
  }

  /** The same for the offsets of any number of rows that fit in dg. */
  lemma LayoutSample(c: Config, dg: seq<Byte>, at: nat, n: nat, rows: nat, k: nat, r: nat, o: nat, v: nat)
    requires Inside(dg, at, Layout(n, rows)) && k < rows && r < n
    requires o == at + RowStart(n, k) + 6 * r && v == ValueStart(n, k) + 2 * r
    ensures v + 1 < ValueStart(n, rows) && o + 6 <= |dg|
    ensures Decode(c, dg, at, Layout(n, rows))[v] == Sample(c, dg, o)
    ensures Decode(c, dg, at, Layout(n, rows))[v + 1] == Sample(c, dg, o + 3)
  {
    ReceiverLayout(n, rows, k, r, v);
    DecodePair(c, dg, at, Layout(n, rows), v, o);
  }

  /** Values v and v + 1 of s are the I and Q samples that start at byte o
      of dg. */
  predicate PairAt(c: Config, dg: seq<Byte>, s: seq<int>, v: nat, o: nat)
  {
    v + 1 < |s| && o + 6 <= |dg| && s[v] == Sample(c, dg, o) && s[v + 1] == Sample(c, dg, o + 3)
  }

  /** Two consecutive offsets o and o + 3 decode to the samples there. */
  lemma DecodePair(c: Config, dg: seq<Byte>, at: nat, l: seq<nat>, v: nat, o: nat)
    requires Inside(dg, at, l) && v + 1 < |l| && at + l[v] == o && at + l[v + 1] == o + 3
    ensures o + 6 <= |dg|
    ensures Decode(c, dg, at, l)[v] == Sample(c, dg, o) && Decode(c, dg, at, l)[v + 1] == Sample(c, dg, o + 3)
  {
    DecodeAt(c, dg, at, l, v);
    DecodeAt(c, dg, at, l, v + 1);
  }

  /** Packing and unpacking are inverse: when Hermes sends the 24-bit
      values vi and vq for receiver r in row k, a laid-out frame holds vi
      and vq at the positions general_work reads them from. */
  lemma SamplesRoundTrip(c: Config, dg: seq<Byte>, at: nat, s: seq<int>, k: nat, r: nat, vi: int, vq: int)
    requires LaidOut(c, dg, at, s) && !RxMuted(c)
    requires k < Rows(c.NumReceivers) && r < c.NumReceivers
    requires -8388608 <= vi < 8388608 && -8388608 <= vq < 8388608
    requires var o := at + RowStart(c.NumReceivers, k) + 6 * r;
             o + 6 <= |dg| && dg[o .. o + 3] == Pack24(vi) && dg[o + 3 .. o + 6] == Pack24(vq)
    ensures ValueStart(c.NumReceivers, k) + 2 * r + 1 < |s|
    ensures s[ValueStart(c.NumReceivers, k) + 2 * r] == vi
    ensures s[ValueStart(c.NumReceivers, k) + 2 * r + 1] == vq
  {
    var n := c.NumReceivers;
    var o, v := at + RowStart(n, k) + 6 * r, ValueStart(n, k) + 2 * r;
    assert ReceiverAt(c, dg, at, s, k, r);
    assert PairAt(c, dg, s, v, o);
    SampleOfPack(c, dg, o, vi);
    SampleOfPack(c, dg, o + 3, vq);
    assert s[v + 1] == Sample(c, dg, o + 3) == vq;
  }

  lemma SampleOfPack(c: Config, dg: seq<Byte>, o: nat, v: int)
    requires !RxMuted(c) && -8388608 <= v < 8388608
    requires o + 3 <= |dg| && dg[o .. o + 3] == Pack24(v)
    ensures Sample(c, dg, o) == v
  {
    Unpack2CInvertsPack24(c, v);
    assert dg[o .. o + 3][0] == dg[o] && dg[o .. o + 3][1] == dg[o + 1] && dg[o .. o + 3][2] == dg[o + 2];
  }

  // --------------------------------------------------------------- datagram

  /** Both USB frames of a datagram start with the sync bytes. */
  predicate InSync(dg: seq<Byte>)
    requires |dg| >= DatagramSize
  {
    SyncOK(dg, FrameStart[0]) && SyncOK(dg, FrameStart[1])
  }

  /** The status after ReceiveRxIQ has looked at USB frames k, k + 1, ... of
      a datagram: each frame in sync, in order, decodes its C0 .. C4, and the
      first frame out of sync ends the scan.  So the first frame's status is
      kept even when the second frame then fails its sync check. */
  function StatusFrom(st: Status, dg: seq<Byte>, k: nat): Status
    requires |dg| >= DatagramSize && k <= 2
    decreases 2 - k
  {
    if k == 2 || !SyncOK(dg, FrameStart[k]) then st
    else StatusFrom(DecodeStatus(st, dg[FrameStart[k] + 3 .. FrameStart[k] + 8]), dg, k + 1)
  }
}
