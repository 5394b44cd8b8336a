/**
 * hermesNB: the GNU Radio block in front of HermesProxy.  Its general_work
 * hands 63 transmit samples at a time to PutTxIQ and spreads one receive
 * buffer over the block's output streams, one stream per receiver; its
 * setters write proxy fields and start and stop delegate to the proxy.
 *
 * A complex output item is modelled as the pair of buffer values it is
 * built from, in buffer order: general_work builds it as
 * gr_complex(*Rx++, *Rx++), and C++ does not fix which of the two
 * arguments is evaluated first, so which value becomes the real part is
 * left open.
 */
module HermesNB {
  import opened Bits
  import opened HermesConfig
  import Schedule
  import Ring
  import Receive
  import Transmit
  import Proxy

  /** An output item: the two receive-buffer values it is built from. */
  datatype Pair = Pair(first: int, second: int)

  /** Item k of receiver r's stream comes from values 2 (k n + r) and
      2 (k n + r) + 1 of the buffer, which lie among its first 2 rows n. */
  lemma ItemInside(n: nat, r: nat, k: nat, rows: nat)
    requires r < n && k < rows
    ensures 2 * (k * n + r) + 1 < 2 * (rows * n)
  {
    assert k * n + r < (k + 1) * n;
    assert (k + 1) * n <= rows * n;
  }

  /** Output stream r of a buffer holding `rows` rows of n receivers. */
  function Stream(buf: seq<int>, n: nat, r: nat, rows: nat): (s: seq<Pair>)
    requires r < n && 2 * (rows * n) <= |buf|
    ensures |s| == rows
  {
    seq(rows, k requires 0 <= k < rows =>
      ItemInside(n, r, k, rows); Pair(buf[2 * (k * n + r)], buf[2 * (k * n + r) + 1]))
  }

  /** general_work undoes the packing of ReceiveRxIQ: for a buffer that
      holds the values of a USB frame, item k of stream r is the I and Q
      sample receiver r sent in row k of that frame. */
  lemma StreamOfFrame(c: Config, dg: seq<Byte>, at: nat, s: seq<int>, r: nat, k: nat)
    requires Receive.LaidOut(c, dg, at, s)
    requires r < c.NumReceivers && k < Receive.Rows(c.NumReceivers)
    ensures 2 * (Receive.Rows(c.NumReceivers) * c.NumReceivers) == |s|
    ensures var o := at + Receive.RowStart(c.NumReceivers, k) + 6 * r;
            && o + 6 <= |dg|
            && Stream(s, c.NumReceivers, r, Receive.Rows(c.NumReceivers))[k]
               == Pair(Receive.Sample(c, dg, o), Receive.Sample(c, dg, o + 3))
  {
    var n, rows := c.NumReceivers, Receive.Rows(c.NumReceivers);
    var o, v := at + Receive.RowStart(n, k) + 6 * r, Receive.ValueStart(n, k) + 2 * r;
    Receive.RowStartIs(n, k);
    assert v == 2 * (k * n + r);
    assert Receive.ReceiverAt(c, dg, at, s, k, r);
    assert Receive.PairAt(c, dg, s, v, o);
    StreamItem(s, n, r, rows, k);
  }

  lemma StreamItem(buf: seq<int>, n: nat, r: nat, rows: nat, k: nat)
    requires r < n && 2 * (rows * n) <= |buf| && k < rows
    ensures 2 * (k * n + r) + 1 < |buf|
    ensures Stream(buf, n, r, rows)[k] == Pair(buf[2 * (k * n + r)], buf[2 * (k * n + r) + 1])
  {
    ItemInside(n, r, k, rows);
  }

  /** And so, when Hermes sends the 24-bit values vi and vq for receiver r
      in row k, item k of stream r is exactly (vi, vq). */
  lemma StreamRoundTrip(c: Config, dg: seq<Byte>, at: nat, s: seq<int>, r: nat, k: nat, vi: int, vq: int)
    requires Receive.LaidOut(c, dg, at, s) && !RxMuted(c)
    requires r < c.NumReceivers && k < Receive.Rows(c.NumReceivers)
    requires -8388608 <= vi < 8388608 && -8388608 <= vq < 8388608
    requires var o := at + Receive.RowStart(c.NumReceivers, k) + 6 * r;
             o + 6 <= |dg| && dg[o .. o + 3] == Receive.Pack24(vi) && dg[o + 3 .. o + 6] == Receive.Pack24(vq)
    ensures 2 * (Receive.Rows(c.NumReceivers) * c.NumReceivers) == |s|
    ensures Stream(s, c.NumReceivers, r, Receive.Rows(c.NumReceivers))[k] == Pair(vi, vq)
  {
    var o := at + Receive.RowStart(c.NumReceivers, k) + 6 * r;
    StreamOfFrame(c, dg, at, s, r, k);
    Receive.SampleOfPack(c, dg, o, vi);
    Receive.SampleOfPack(c, dg, o + 3, vq);
  }

  class HermesNB {
    /** The global Hermes pointer: the proxy the block drives. */
    const Hermes: Proxy.HermesProxy

    /** The block around a proxy already constructed. */
    constructor(h: Proxy.HermesProxy)
      ensures Hermes == h
    {
      Hermes := h;
    }

    /** start: delegates to HermesProxy::Start. */
    method Start()
      requires Hermes.Valid()
      modifies Hermes`TxStop, Hermes`TxHoldOff
      ensures Hermes.Valid()
      ensures Hermes.TxState() == old(Hermes.TxState()).(stop := false, holdOff := true)
    {
      Hermes.Start();
    }

    /** stop: delegates to HermesProxy::Stop. */
    method Stop()
      requires Hermes.Valid()
      modifies Hermes`TxStop
      ensures Hermes.Valid()
      ensures Hermes.TxState() == old(Hermes.TxState()).(stop := true)
    {
      Hermes.Stop();
    }

    /** set_ClockSource: the parsed hex word with its two low bits cleared
        becomes the proxy's ClockSource; nothing else changes. */
    method SetClockSource(ck: bv32)
      requires Hermes.Valid()
      modifies Hermes`config
      ensures Hermes.Valid()
      ensures Hermes.config == old(Hermes.config).(ClockSource := ClockSourceOf(ck))
    {
      Hermes.config := Hermes.config.(ClockSource := ClockSourceOf(ck));
    }

    /** The transmit half of general_work, on a pool of c slots, took
        ring tx0 and bank cycler0 with `items` input items to ring tx1 and
        bank cycler1: it fed 63 samples exactly when there were at least 63
        and a slot was free, consumed that many, claimed the slot and stepped
        the bank; otherwise it consumed none and left ring and bank alone. */
    static predicate TxFed(c: nat, tx0: Ring.Ring, cycler0: nat, items: nat, consumed: nat, tx1: Ring.Ring, cycler1: nat)
    {
      && Ring.Valid(tx0, c)
      && var fed := items >= 63 && Ring.Claim(tx0, c).Some?;
      && consumed == (if fed then 63 else 0)
      && tx1 == (if fed then Ring.Claim(tx0, c).value else tx0)
      && cycler1 == (if fed then Transmit.NextBank(cycler0) else cycler0)
    }

    /** After the receive half of general_work, from receive ring rx0: with
        no buffer ready it produced nothing and left the ring; otherwise it
        took buffer rx0.r, produced USBRowCount[N - 1] items and wrote
        stream r of that buffer to output r, for each of the N receivers. */
    ghost predicate RxDrained(rx0: Ring.Ring, out: seq<array<Pair>>, produced: nat)
      reads Hermes`RxWriteCounter, Hermes`RxReadCounter, Hermes`config, Hermes.RxBufs()
      reads set r | 0 <= r < |out| :: out[r]
    {
      && Ring.Valid(rx0, Hermes.NumRxBufs)
      && var take := Ring.Take(rx0, Hermes.NumRxBufs);
      var n := Hermes.config.NumReceivers;
      && (take.None? ==> produced == 0 && Hermes.RxRing() == rx0)
      && (take.Some? ==>
            && 1 <= n <= 8 && n <= |out| && rx0.r < |Hermes.RxIQBuf|
            && produced == Schedule.USBRowCount[n - 1]
            && Hermes.RxRing() == take.value
            && 2 * (produced * n) <= Hermes.RxIQBuf[rx0.r].Length
            && forall r :: 0 <= r < n ==>
                 produced <= out[r].Length && out[r][..produced] == Stream(Hermes.RxIQBuf[rx0.r][..], n, r, produced))
    }

    /** general_work: with at least 63 input items, offers the first 63 to
        PutTxIQ and consumes what it takes; then, if a receive buffer is
        ready, writes USBRowCount[N - 1] items to each of the N output
        streams and returns that count, and otherwise returns 0. */
    method GeneralWork(input: seq<Transmit.Sample>, out: seq<array<Pair>>) returns (produced: nat, consumed: nat)
      requires Hermes.Valid()
      requires |out| >= Hermes.config.NumReceivers
      requires forall r :: 0 <= r < |out| ==> out[r].Length >= 256
      requires forall i, j :: 0 <= i < |out| && 0 <= j < |out| && i != j ==> out[i] != out[j]
      modifies Hermes`TxWriteCounter, Hermes`TxControlCycler, Hermes.TxBufs(), Hermes`RxReadCounter
      modifies set r | 0 <= r < |out| :: out[r]
      ensures Hermes.Valid()
      ensures TxFed(Hermes.NumTxBufs, old(Hermes.TxRing()), old(Hermes.TxControlCycler), |input|, consumed, Hermes.TxRing(), Hermes.TxControlCycler)
      ensures RxDrained(old(Hermes.RxRing()), out, produced)
    {
      consumed := FeedTx(input);
      produced := DrainRx(out);
    }

    /** The transmit half of general_work. */
    method FeedTx(input: seq<Transmit.Sample>) returns (consumed: nat)
      requires Hermes.Valid()
      modifies Hermes`TxWriteCounter, Hermes`TxControlCycler, Hermes.TxBufs()
      ensures Hermes.Valid()
      ensures TxFed(Hermes.NumTxBufs, old(Hermes.TxRing()), old(Hermes.TxControlCycler), |input|, consumed, Hermes.TxRing(), Hermes.TxControlCycler)
      ensures var claim := Ring.Claim(old(Hermes.TxRing()), Hermes.NumTxBufs);
              |input| >= 63 && claim.Some? ==>
                && Hermes.TxBuf[claim.value.w][..512]
                   == Transmit.TxFrame(Hermes.config, Hermes.TxControlCycler, old(Hermes.TxBuf[claim.value.w][4..8]), input[..63])
                && Hermes.TxBuf[claim.value.w][512..] == old(Hermes.TxBuf[claim.value.w][512..])
                && forall j :: 0 <= j < Hermes.NumTxBufs && j != claim.value.w ==> Hermes.TxBuf[j][..] == old(Hermes.TxBuf[j][..])
      ensures var claim := Ring.Claim(old(Hermes.TxRing()), Hermes.NumTxBufs);
              !(|input| >= 63 && claim.Some?) ==>
                forall j :: 0 <= j < Hermes.NumTxBufs ==> Hermes.TxBuf[j][..] == old(Hermes.TxBuf[j][..])
    {
      consumed := 0;
      if |input| >= 63 {
        consumed := Hermes.PutTxIQ(input[..63]);
      }
    }

    /** The receive half of general_work. */
    method DrainRx(out: seq<array<Pair>>) returns (produced: nat)
      requires Hermes.Valid()
      requires |out| >= Hermes.config.NumReceivers
      requires forall r :: 0 <= r < |out| ==> out[r].Length >= 256
      requires forall i, j :: 0 <= i < |out| && 0 <= j < |out| && i != j ==> out[i] != out[j]
      modifies Hermes`RxReadCounter, set r | 0 <= r < |out| :: out[r]
      ensures Hermes.Valid()
      ensures RxDrained(old(Hermes.RxRing()), out, produced)
      ensures Hermes.TxRing() == old(Hermes.TxRing()) && Hermes.TxControlCycler == old(Hermes.TxControlCycler)
    {
      var n := Hermes.config.NumReceivers;
      var rx := Hermes.GetRxIQ();
      if rx == null {
        return 0;
      }
      var samplesPerRx := Schedule.USBRowCount[n - 1];
      Deinterleave(rx, n, samplesPerRx, out);
      return samplesPerRx;
    }

    /** The loop nest of general_work: the Rx pointer runs through the
        buffer two values per item, receiver by receiver within a row. */
    static method Deinterleave(rx: array<int>, n: nat, rows: nat, out: seq<array<Pair>>)
      requires 1 <= n <= |out| && 2 * (rows * n) <= rx.Length
      requires forall r :: 0 <= r < |out| ==> out[r].Length >= rows
      requires forall i, j :: 0 <= i < |out| && 0 <= j < |out| && i != j ==> out[i] != out[j]
      modifies set r | 0 <= r < |out| :: out[r]
      ensures forall r :: 0 <= r < n ==> out[r][..rows] == Stream(rx[..], n, r, rows)
    {
      for index := 0 to rows
        invariant forall r, k :: 0 <= r < n && 0 <= k < index ==> out[r][k] == Stream(rx[..], n, r, rows)[k]
      {
        DeliverRow(rx, n, rows, index, out);
      }
      forall r | 0 <= r < n
        ensures out[r][..rows] == Stream(rx[..], n, r, rows)
      {
      }
    }

    /** One pass of general_work's outer loop: item `index` of every
        receiver's stream goes to that receiver's output; no other output
        entry changes. */
    static method DeliverRow(rx: array<int>, n: nat, rows: nat, index: nat, out: seq<array<Pair>>)
      requires 1 <= n <= |out| && 2 * (rows * n) <= rx.Length && index < rows
      requires forall r :: 0 <= r < |out| ==> out[r].Length >= rows
      requires forall i, j :: 0 <= i < |out| && 0 <= j < |out| && i != j ==> out[i] != out[j]
      modifies set r | 0 <= r < |out| :: out[r]
      ensures forall r :: 0 <= r < n ==> out[r][index] == Stream(rx[..], n, r, rows)[index]
      ensures forall r, k :: 0 <= r < |out| && 0 <= k < out[r].Length && k != index ==> out[r][k] == old(out[r][k])
    {
      var p := 2 * (index * n);
      for receiver := 0 to n
        invariant p == 2 * (index * n + receiver)
        invariant forall r :: 0 <= r < receiver ==> out[r][index] == Stream(rx[..], n, r, rows)[index]
        invariant forall r, k :: 0 <= r < |out| && 0 <= k < out[r].Length && k != index ==> out[r][k] == old(out[r][k])
      {
        ItemInside(n, receiver, index, rows);
        out[receiver][index] := Pair(rx[p], rx[p + 1]);
        p := p + 2;
      }
    }
  }
}
