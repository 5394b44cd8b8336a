/**
 * The decision SendTxIQ takes each time the scheduler fires: whether to send
 * queued transmit frames, how many, and which counters move.  The proxy's
 * SendTxIQ method is proved to do what Send computes; the lemmas below state
 * Send's behaviour in terms of the number of queued slots.
 */
module TxDrain {
  import opened Bits
  import opened Ring

  /** Everything SendTxIQ reads or writes besides the buffers themselves:
      the transmit ring, TxHoldOff, TxStop, TotalTxBufCount, LostTxBufCount. */
  datatype Drain = Drain(ring: Ring, holdOff: bool, stop: bool, total: nat, lost: nat)

  /** Ring positions visited by n rounds of "use slot r, then r := (r + 1) & (c - 1)". */
  function Walk(r: nat, n: nat, c: nat): (s: seq<nat>)
    requires c >= 1
    ensures |s| == n
    ensures r < c ==> forall i :: 0 <= i < n ==> s[i] < c
    decreases n
  {
    if n == 0 then [] else [r] + Walk(Advance(r, c), n - 1, c)
  }

  /** The read index after those n rounds. */
  function WalkEnd(r: nat, n: nat, c: nat): (e: nat)
    requires c >= 1
    ensures r < c ==> e < c
    decreases n
  {
    if n == 0 then r else WalkEnd(Advance(r, c), n - 1, c)
  }

  /** One call of SendTxIQ with c transmit slots and TXINITIALBURST = burst:
      the new state and the slots handed to the transport, in order.  Unless
      TxStop is set the call is counted, and then either the hold-off ends
      or the steady state goes on. */
  function Send(d: Drain, c: nat, burst: nat): (Drain, seq<nat>)
    requires Valid(d.ring, c)
  {
    if d.stop then (d, [])
    else if d.holdOff then Release(d.(total := d.total + 1), c, burst)
    else Steady(d.(total := d.total + 1), c)
  }

  /** In hold-off: nothing until 2 * burst slots are queued, then all of
      them at once, and the hold-off ends. */
  function Release(d: Drain, c: nat, burst: nat): (Drain, seq<nat>)
    requires Valid(d.ring, c)
  {
    var w, r := d.ring.w, d.ring.r;
    var tempWrite := if w < r then w + c else w;
    if tempWrite - r < burst * 2 then (d, [])
    else (d.(holdOff := false, ring := Ring(w, WalkEnd(r, burst * 2, c))), Walk(r, burst * 2, c))
  }

  /** Out of hold-off: two slots per call, or one lost buffer counted when
      fewer than two are queued. */
  function Steady(d: Drain, c: nat): (Drain, seq<nat>)
    requires Valid(d.ring, c)
  {
    var w, r := d.ring.w, d.ring.r;
    if r == w || Advance(r, c) == w then (d.(lost := d.lost + 1), [])
    else (d.(ring := Ring(w, Advance(Advance(r, c), c))), [r, Advance(r, c)])
  }

  /** One more round appends the current read index and advances it. */
  lemma {:induction false} WalkSnoc(r: nat, n: nat, c: nat)
    requires c >= 1
    ensures Walk(r, n + 1, c) == Walk(r, n, c) + [WalkEnd(r, n, c)]
    ensures WalkEnd(r, n + 1, c) == Advance(WalkEnd(r, n, c), c)
    decreases n
  {
    if n > 0 {
      WalkSnoc(Advance(r, c), n - 1, c);
    }
  }

  lemma {:induction false} WalkSpec(r: nat, n: nat, c: nat)
    requires IsPow2(c) && r < c
    ensures forall i :: 0 <= i < n ==> Walk(r, n, c)[i] == (r + i) % c
    ensures WalkEnd(r, n, c) == (r + n) % c
    decreases n
  {
    ModNear(r, c);
    if n > 0 {
      var m := n - 1;
      WalkSpec(r, m, c);
      WalkSnoc(r, m, c);
      AdvanceIsMod(WalkEnd(r, m, c), c);
      ModAdd(r + m, 1, c);
      assert forall i :: 0 <= i < m ==> Walk(r, n, c)[i] == Walk(r, m, c)[i];
    }
  }

  /** A valid ring is the ring reached after Queued more claims than takes. */
  lemma AsHistory(g: Ring, c: nat)
    requires Valid(g, c)
    ensures g == After(g.r + Queued(g, c), g.r, c)
    ensures Queued(g, c) < c
  {
    ModNear(g.w - g.r, c);
    ModNear(g.r, c);
    ModNear(g.r + Queued(g, c), c);
  }

  /** Each slot the reader takes next, in order, is a queued one. */
  lemma NextSlotsReadable(g: Ring, c: nat, i: nat)
    requires Valid(g, c) && i < Queued(g, c)
    ensures Readable(g, c, (g.r + i) % c)
  {
    AsHistory(g, c);
    ModNear(g.r, c);
    ModSub(g.r + i, g.r, c);
  }

  /** After k more takes from a ring holding at least k queued slots. */
  lemma TakeSeveral(g: Ring, c: nat, k: nat)
    requires Valid(g, c) && k <= Queued(g, c)
    ensures Valid(Ring(g.w, (g.r + k) % c), c)
    ensures Queued(Ring(g.w, (g.r + k) % c), c) == Queued(g, c) - k
  {
    var q := Queued(g, c);
    AsHistory(g, c);
    HistorySpec(g.r + q, g.r + k, c);
  }

  /** SendTxIQ with TxStop set changes nothing and sends nothing. */
  lemma StoppedSendsNothing(d: Drain, c: nat, burst: nat)
    requires Valid(d.ring, c) && d.stop
    ensures Send(d, c, burst) == (d, [])
  {
  }

  /** Otherwise it counts the call, and in hold-off it sends nothing until
      2 * burst slots are queued; then it sends exactly those 2 * burst
      consecutive slots starting at r and leaves hold-off. */
  lemma {:induction false} HoldOffSpec(d: Drain, c: nat, burst: nat)
    requires Valid(d.ring, c) && !d.stop && d.holdOff
    ensures var (d', sent) := Send(d, c, burst);
            var q := Queued(d.ring, c);
            && d'.total == d.total + 1 && d'.lost == d.lost && !d'.stop
            && d'.ring.w == d.ring.w
            && (q < burst * 2 ==> d' == d.(total := d.total + 1) && sent == [])
            && (q >= burst * 2 ==>
                  && !d'.holdOff && |sent| == burst * 2
                  && (forall i :: 0 <= i < |sent| ==> sent[i] == (d.ring.r + i) % c)
                  && d'.ring.r == (d.ring.r + burst * 2) % c
                  && Queued(d'.ring, c) == q - burst * 2)
  {
    var w, r := d.ring.w, d.ring.r;
    ModNear(w - r, c);
    var q := Queued(d.ring, c);
    assert (if w < r then w + c else w) - r == q;
    if q >= burst * 2 {
      WalkSpec(r, burst * 2, c);
      TakeSeveral(d.ring, c, burst * 2);
    }
  }

  /** Out of hold-off, fewer than two queued slots count one lost transmit
      buffer and send nothing; otherwise slots r and r + 1 are sent. */
  lemma {:induction false} SteadySpec(d: Drain, c: nat, burst: nat)
    requires Valid(d.ring, c) && !d.stop && !d.holdOff
    ensures var (d', sent) := Send(d, c, burst);
            var q := Queued(d.ring, c);
            && d'.total == d.total + 1 && !d'.stop && !d'.holdOff
            && d'.ring.w == d.ring.w
            && (q < 2 ==> d' == d.(total := d.total + 1, lost := d.lost + 1) && sent == [])
            && (q >= 2 ==>
                  && d'.lost == d.lost
                  && sent == [d.ring.r, (d.ring.r + 1) % c]
                  && d'.ring.r == (d.ring.r + 2) % c
                  && Queued(d'.ring, c) == q - 2)
  {
    var w, r := d.ring.w, d.ring.r;
    var q := Queued(d.ring, c);
    AdvanceIsMod(r, c);
    ModNear(w - r, c);
    ModNear(r + 1, c);
    var r1 := (r + 1) % c;
    AdvanceIsMod(r1, c);
    ModNear(r1 + 1, c);
    ModNear(w - r1, c);
    ModAdd(r + 1, 1, c);
    if q >= 2 {
      TakeSeveral(d.ring, c, 2);
    }
  }

  /** The read index never overtakes the write index: every slot sent was
      queued, they are sent in ring order, and the queue shrinks by exactly
      the number of slots sent. */
  lemma {:induction false} NeverOvertakes(d: Drain, c: nat, burst: nat)
    requires Valid(d.ring, c)
    ensures var (d', sent) := Send(d, c, burst);
            && Valid(d'.ring, c)
            && Queued(d'.ring, c) + |sent| == Queued(d.ring, c)
            && forall i :: 0 <= i < |sent| ==>
                 sent[i] == (d.ring.r + i) % c && Readable(d.ring, c, sent[i])
  {
    var (d', sent) := Send(d, c, burst);
    var q := Queued(d.ring, c);
    if !d.stop {
      if d.holdOff {
        HoldOffSpec(d, c, burst);
        if q >= burst * 2 {
          TakeSeveral(d.ring, c, burst * 2);
        }
      } else {
        SteadySpec(d, c, burst);
        if q >= 2 {
          TakeSeveral(d.ring, c, 2);
          ModNear(d.ring.r, c);
        }
      }
    }
    forall i | 0 <= i < |sent|
      ensures sent[i] == (d.ring.r + i) % c && Readable(d.ring, c, sent[i])
    {
      NextSlotsReadable(d.ring, c, i);
      if !d.holdOff { ModNear(d.ring.r, c); }
    }
  }
}
