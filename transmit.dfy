/**
 * The USB frame PutTxIQ builds for Hermes: the control block of the next
 * register bank in TxControlCycler's rotation, then one 8-byte row per
 * complex sample -- two zero audio words, then the 16-bit I and Q words,
 * big-endian.  Hermes swaps I and Q on transmit, so the I word carries the
 * imaginary part and the Q word the real part.
 */
module Transmit {
  import opened Bits
  import opened HermesConfig
  import opened Wrappers
  import Control

  /** A transmit sample as PutTxIQ has scaled it: `(int)(real * 32767.0)`
      and `(int)(imag * 32767.0)`. */
  datatype Sample = Sample(re: int, im: int)

  // ------------------------------------------------------------ bank cycle

  /** The values TxControlCycler takes: the even banks 0 .. 20. */
  predicate CyclerValue(x: nat)
  {
    x <= 20 && x % 2 == 0
  }

  /** `TxControlCycler += 2; if (TxControlCycler > 0x14) TxControlCycler = 0;` */
  function NextBank(x: nat): (y: nat)
    ensures y <= 20 && (x % 2 == 0 ==> y % 2 == 0)
  {
    if x + 2 > 0x14 then 0 else x + 2
  }

  /** The bank after k frames starting from bank x. */
  function BankAfter(x: nat, k: nat): nat
    decreases k
  {
    if k == 0 then x else NextBank(BankAfter(x, k - 1))
  }

  /** Every bank the cycler selects is one BuildControlRegs knows, so a
      transmitted frame never keeps stale control bytes; bank 22 is never
      selected. */
  lemma CyclerBanksKnown(c: Config, x: nat)
    requires WellFormed(c) && CyclerValue(x)
    ensures Control.Payload(c, NextBank(x)).Some? && NextBank(x) != 22
  {
  }

  /** From any of its values the cycler comes back after exactly eleven
      frames, and not before. */
  lemma CyclerPeriod(x: nat)
    requires CyclerValue(x)
    ensures BankAfter(x, 11) == x
    ensures forall k :: 0 < k < 11 ==> BankAfter(x, k) != x
  {
    BankAfterWraps(x, 11);
    forall k | 0 < k < 11
      ensures BankAfter(x, k) != x
    {
      BankAfterWraps(x, k);
    }
  }

  /** Every bank 0, 2, ..., 20 comes round within those eleven frames. */
  lemma CyclerVisitsAll(x: nat, b: nat)
    requires CyclerValue(x) && CyclerValue(b)
    ensures exists k :: 0 <= k < 11 && BankAfter(x, k) == b
  {
    var hb, hx := b / 2, x / 2;
    assert b == 2 * hb && x == 2 * hx;
    var k := if hb >= hx then hb - hx else hb + 11 - hx;
    BankAfterWraps(x, k);
    assert BankAfter(x, k) == b;
  }

  /** Within one turn the cycler moves up by two per frame and wraps once. */
  lemma {:induction false} BankAfterWraps(x: nat, k: nat)
    requires CyclerValue(x) && k <= 11
    ensures BankAfter(x, k) == if x + 2 * k <= 20 then x + 2 * k else x + 2 * k - 22
    decreases k
  {
    if k > 0 {
      BankAfterWraps(x, k - 1);
    }
  }

  // ------------------------------------------------------------- sample rows

  /** The I and Q words of a row, or zeros while PTT-off muting applies. */
  function IQBytes(c: Config, s: Sample): (b: seq<Byte>)
    ensures |b| == 4
  {
    if TxMuted(c) then [0x00, 0x00, 0x00, 0x00]
    else [Hi16(s.im), Lo16(s.im), Hi16(s.re), Lo16(s.re)]
  }

  /** One row: the left and right audio words, always zero, then I and Q. */
  function Row(c: Config, s: Sample): (b: seq<Byte>)
    ensures |b| == 8
  {
    [0x00, 0x00, 0x00, 0x00] + IQBytes(c, s)
  }

  /** The rows of samples ss, in order. */
  function Rows(c: Config, ss: seq<Sample>): (b: seq<Byte>)
    ensures |b| == 8 * |ss|
    decreases |ss|
  {
    if |ss| == 0 then [] else Rows(c, ss[..|ss| - 1]) + Row(c, ss[|ss| - 1])
  }

  /** Hermes reads a word back as the 16-bit two's-complement value of the
      sample: exact within the 16-bit range, wrapped outside it. */
  lemma WordDecodes(x: int)
    ensures Signed16(Hi16(x), Lo16(x)) == Wrap16(x)
    ensures -32768 <= x < 32768 ==> Signed16(Hi16(x), Lo16(x)) == x
  {
    var u := x % 65536;
    WordBytes(x);
    assert Signed16(Hi16(x), Lo16(x)) == u - (if u / 256 >= 128 then 65536 else 0);
    Split16(x);
    if -32768 <= x < 32768 {
      ModNear(x + 32768, 65536);
    }
  }

  /** The two bytes of a word, as integers. */
  lemma WordBytes(x: int)
    ensures var u := x % 65536;
            && Hi16(x) as int == u / 256 && Lo16(x) as int == u % 256
            && u == (u / 256) * 256 + u % 256
  {
    var u := x % 65536;
    Split16(x);
    ModOfMod(x, 256, 256);
    ByteOf(u / 256);
    ByteOf(x % 256);
  }

  /** The integer facts behind WordDecodes, kept free of bit vectors. */
  lemma Split16(x: int)
    ensures var u := x % 65536;
            && u / 256 < 256 && u == (u / 256) * 256 + u % 256
            && Wrap16(x) == u - (if u / 256 >= 128 then 65536 else 0)
  {
    var u := x % 65536;
    var k := x / 65536;
    assert x == 65536 * k + u;
    if u < 32768 {
      ModUnique(x + 32768, 65536, k, u + 32768);
    } else {
      ModUnique(x + 32768, 65536, k + 1, u - 32768);
    }
  }

  lemma ModOfMod(x: int, a: nat, b: nat)
    requires a >= 1 && b >= 1
    ensures (x % (a * b)) % a == x % a
  {
    var q := x / (a * b);
    var r := x % (a * b);
    assert x == (a * b) * q + r;
    assert x == a * (b * q) + r;
    var s := r / a;
    assert r == a * s + r % a;
    assert x == a * (b * q + s) + r % a;
    ModUnique(x, a, b * q + s, r % a);
  }

  /** The I and Q words of a row are the imaginary and the real part. */
  lemma IQDecodes(c: Config, s: Sample)
    ensures var b := IQBytes(c, s);
            && (TxMuted(c) ==> b == [0x00, 0x00, 0x00, 0x00])
            && (!TxMuted(c) ==>
                  Signed16(b[0], b[1]) == Wrap16(s.im) && Signed16(b[2], b[3]) == Wrap16(s.re))
  {
    WordDecodes(s.im);
    WordDecodes(s.re);
  }

  /** A word is zero exactly when the sample is a multiple of 2^16. */
  lemma ZeroWord(x: int)
    ensures Hi16(x) == 0x00 && Lo16(x) == 0x00 <==> x % 65536 == 0
  {
    WordBytes(x);
  }

  /** Row i of Rows(c, ss) is Row(c, ss[i]). */
  lemma {:induction false} RowAt(c: Config, ss: seq<Sample>, i: nat)
    requires i < |ss|
    ensures Rows(c, ss)[8 * i .. 8 * i + 8] == Row(c, ss[i])
    decreases |ss|
  {
    if i < |ss| - 1 {
      var init := ss[..|ss| - 1];
      RowAt(c, init, i);
      assert init[i] == ss[i];
      assert Rows(c, ss)[8 * i .. 8 * i + 8] == Rows(c, init)[8 * i .. 8 * i + 8];
    }
  }

  /** Byte 8 i + j of Rows(c, ss) is byte j of Row(c, ss[i]). */
  lemma RowByte(c: Config, ss: seq<Sample>, i: nat)
    requires i < |ss|
    ensures forall k :: 8 * i <= k < 8 * i + 8 ==> Rows(c, ss)[k] == Row(c, ss[i])[k - 8 * i]
  {
    RowAt(c, ss, i);
    forall k | 8 * i <= k < 8 * i + 8
      ensures Rows(c, ss)[k] == Row(c, ss[i])[k - 8 * i]
    {
      assert Rows(c, ss)[8 * i .. 8 * i + 8][k - 8 * i] == Rows(c, ss)[k];
    }
  }

  // ------------------------------------------------------------------ Vox

  /** Some row of ss carries a nonzero I or Q byte. */
  predicate Activity(c: Config, ss: seq<Sample>)
  {
    exists i :: 0 <= i < |ss| && IQBytes(c, ss[i]) != [0x00, 0x00, 0x00, 0x00]
  }

  /** Vox sees activity exactly when the transmitter is not muted and some
      sample has a part that is not a multiple of 2^16 (that does not read
      back as zero). */
  lemma ActivityMeansSignal(c: Config, ss: seq<Sample>)
    ensures Activity(c, ss) <==>
              !TxMuted(c) && exists i :: 0 <= i < |ss| && (ss[i].re % 65536 != 0 || ss[i].im % 65536 != 0)
  {
    forall i | 0 <= i < |ss|
      ensures IQBytes(c, ss[i]) != [0x00, 0x00, 0x00, 0x00] <==>
                !TxMuted(c) && (ss[i].re % 65536 != 0 || ss[i].im % 65536 != 0)
    {
      ZeroWord(ss[i].re);
      ZeroWord(ss[i].im);
    }
  }

  // ------------------------------------------------------------------ frame

  /** The first 8 + 8 |ss| bytes of the frame PutTxIQ fills for bank `bank`,
      where prev are the frame's bytes 4 .. 7 before: the control block, the
      MOX bit set in C0 also when Vox hears activity, then the rows. */
  function TxFrame(c: Config, bank: nat, prev: seq<Byte>, ss: seq<Sample>): (f: seq<Byte>)
    requires WellFormed(c) && |prev| == 4
    ensures |f| == 8 + 8 * |ss|
  {
    WithRows(c, Control.ControlFrame(c, bank, prev), ss)
  }

  /** The control block ctrl, with MOX set in C0 when Vox hears activity,
      then the rows of ss. */
  function WithRows(c: Config, ctrl: seq<Byte>, ss: seq<Sample>): (f: seq<Byte>)
    requires |ctrl| == 8
    ensures |f| == 8 + 8 * |ss|
  {
    var c0 := if c.PTTMode == PTTVox && Activity(c, ss) then ctrl[3] | 0x01 else ctrl[3];
    ctrl[..3] + [c0] + ctrl[4..] + Rows(c, ss)
  }

  /** A byte string f that holds the control block ctrl up to C0, C0 with
      MOX set when vox holds, and the rows of ss from byte 8 on, starts with
      WithRows(c, ctrl, ss). */
  lemma FrameOf(ctrl: seq<Byte>, f: seq<Byte>, c: Config, ss: seq<Sample>, vox: bool)
    requires |ctrl| == 8
    requires vox == (c.PTTMode == PTTVox && Activity(c, ss))
    requires |f| >= 8 + 8 * |ss|
    requires forall k :: 0 <= k < 8 && k != 3 ==> f[k] == ctrl[k]
    requires f[3] == if vox then ctrl[3] | 0x01 else ctrl[3]
    requires forall k :: 8 <= k < 8 + 8 * |ss| ==> f[k] == Rows(c, ss)[k - 8]
    ensures f[..8 + 8 * |ss|] == WithRows(c, ctrl, ss)
  {
    var g := f[..8 + 8 * |ss|];
    var c0 := if vox then ctrl[3] | 0x01 else ctrl[3];
    var head := ctrl[..3] + [c0] + ctrl[4..];
    forall k | 0 <= k < 8
      ensures g[k] == head[k]
    {
      if k < 3 {
        assert head[k] == ctrl[k];
      } else if k > 3 {
        assert head[k] == ctrl[4..][k - 4];
      }
    }
    assert g[..8] == head;
    assert g[8..] == Rows(c, ss);
    assert g == g[..8] + g[8..];
  }

  /** What the frame's control block says: sync, the bank and MOX in C0,
      the bank's settings in C1 .. C4.  MOX is on exactly when PTT is on, or
      in Vox mode when some sample is heard. */
  lemma TxFrameHeader(c: Config, bank: nat, prev: seq<Byte>, ss: seq<Sample>)
    requires WellFormed(c) && |prev| == 4 && CyclerValue(bank)
    ensures var f := TxFrame(c, bank, prev, ss);
            && f[..3] == [0x7F, 0x7F, 0x7F]
            && (f[3] & 0xFE) as int == bank
            && (f[3] & 0x01 == 0x01 <==>
                  c.PTTMode == PTTOn || (c.PTTMode == PTTVox && Activity(c, ss)))
            && f[4..8] == Control.ControlFrame(c, bank, prev)[4..]
  {
    var ctrl := Control.ControlFrame(c, bank, prev);
    Control.HeaderDecodes(c, bank, prev);
    MoxBit(ctrl[3], c.PTTMode == PTTOn);
  }

  /** Row i of the frame: zero audio words, then sample i's I and Q words. */
  lemma TxFrameRow(c: Config, bank: nat, prev: seq<Byte>, ss: seq<Sample>, i: nat)
    requires WellFormed(c) && |prev| == 4 && i < |ss|
    ensures var f := TxFrame(c, bank, prev, ss);
            && f[8 + 8 * i .. 12 + 8 * i] == [0x00, 0x00, 0x00, 0x00]
            && f[12 + 8 * i .. 16 + 8 * i] == IQBytes(c, ss[i])
  {
    TxFrameRows(c, bank, prev, ss);
    RowAt(c, ss, i);
    SliceRow(TxFrame(c, bank, prev, ss), Rows(c, ss), i, Row(c, ss[i]));
  }

  /** After the eight control bytes the frame holds the rows. */
  lemma TxFrameRows(c: Config, bank: nat, prev: seq<Byte>, ss: seq<Sample>)
    requires WellFormed(c) && |prev| == 4
    ensures TxFrame(c, bank, prev, ss)[8..] == Rows(c, ss)
  {
  }

  lemma SliceRow(f: seq<Byte>, rows: seq<Byte>, i: nat, row: seq<Byte>)
    requires |f| >= 8 && f[8..] == rows && 8 * i + 8 <= |rows| && rows[8 * i .. 8 * i + 8] == row
    ensures f[8 + 8 * i .. 12 + 8 * i] == row[..4] && f[12 + 8 * i .. 16 + 8 * i] == row[4..]
  {
    assert f[8 + 8 * i .. 16 + 8 * i] == row;
  }

  /** Setting bit 0 of a C0 byte keeps its bank bits and sets MOX. */
  lemma MoxBit(b: Byte, on: bool)
    requires (b & 0x01 == 0x01) == on
    ensures (b | 0x01) & 0xFE == b & 0xFE && (b | 0x01) & 0x01 == 0x01
  {
  }
}
