/**
 * The single-producer/single-consumer ring discipline shared by the receive
 * buffer pool (GetNextRxBuf / GetRxIQ) and the transmit buffer pool
 * (GetNextTxBuf / SendTxIQ) of HermesProxy: a write index and a read index
 * into a power-of-two number of slots, advanced with `++i &= (N - 1)`.
 *
 * The writer first advances the write index and then fills the slot it now
 * points at; the reader takes the slot at the read index and then advances
 * it.  So a reader always lags one slot behind: slot w, the one written
 * last, becomes readable only once the next claim moves w past it.
 */
module Ring {
  import opened Bits
  import opened Wrappers

  /** Write index w and read index r of a ring. */
  datatype Ring = Ring(w: nat, r: nat)

  predicate Valid(g: Ring, c: nat)
  {
    IsPow2(c) && g.w < c && g.r < c
  }

  /** `(i + 1) & (c - 1)` */
  function Advance(i: nat, c: nat): (j: nat)
    requires c >= 1
    ensures j < c
  {
    And(i + 1, c - 1)
  }

  lemma AdvanceIsMod(i: nat, c: nat)
    requires IsPow2(c)
    ensures Advance(i, c) == (i + 1) % c
  {
    MaskIsMod(i + 1, c);
  }

  /** Number of filled slots the reader may still take. */
  function Queued(g: Ring, c: nat): nat
    requires c >= 1
  {
    (g.w - g.r) % c
  }

  /** Slot i is queued for the reader: it lies in [r, w) going round the ring. */
  predicate Readable(g: Ring, c: nat, i: nat)
    requires c >= 1
  {
    (i - g.r) % c < Queued(g, c)
  }

  /** The writer's claim of its next slot: refused exactly when advancing w
      would make it equal to r. */
  function Claim(g: Ring, c: nat): Option<Ring>
    requires Valid(g, c)
  {
    if Advance(g.w, c) == g.r then None else Some(Ring(Advance(g.w, c), g.r))
  }

  /** The reader's take of slot r: refused exactly when the ring is empty. */
  function Take(g: Ring, c: nat): Option<Ring>
    requires Valid(g, c)
  {
    if g.r == g.w then None else Some(Ring(g.w, Advance(g.r, c)))
  }

  /** A claim fails exactly when c - 1 slots are queued (the ring is full);
      otherwise w moves on by one modulo c, r stays, one more slot is queued,
      and the claimed slot was neither the reader's slot nor a queued one. */
  lemma ClaimSpec(g: Ring, c: nat)
    requires Valid(g, c)
    ensures Claim(g, c).None? <==> Queued(g, c) == c - 1
    ensures Claim(g, c).Some? ==>
              var g' := Claim(g, c).value;
              && Valid(g', c) && g'.w == (g.w + 1) % c && g'.r == g.r
              && Queued(g', c) == Queued(g, c) + 1
              && g'.w != g.r && !Readable(g, c, g'.w)
  {
    AdvanceIsMod(g.w, c);
    ModNear(g.w - g.r, c);
    ModNear(g.w + 1, c);
    var w' := (g.w + 1) % c;
    ModNear(w' - g.r, c);
  }

  /** A take fails exactly when nothing is queued; otherwise it hands out
      slot r, which is never the slot w the writer filled last, advances r by
      one modulo c, leaves w alone, and one slot fewer is queued. */
  lemma TakeSpec(g: Ring, c: nat)
    requires Valid(g, c)
    ensures Take(g, c).None? <==> Queued(g, c) == 0
    ensures Take(g, c).Some? ==>
              var g' := Take(g, c).value;
              && Valid(g', c) && g'.r == (g.r + 1) % c && g'.w == g.w
              && Queued(g', c) == Queued(g, c) - 1
              && g.r != g.w && Readable(g, c, g.r)
  {
    AdvanceIsMod(g.r, c);
    ModNear(g.w - g.r, c);
    ModNear(g.r + 1, c);
    var r' := (g.r + 1) % c;
    ModNear(g.w - r', c);
    ModNear(g.r - g.r, c);
  }

  /** The ring after `claims` successful claims and `takes` successful takes,
      starting from Ring(0, 0). */
  function After(claims: nat, takes: nat, c: nat): Ring
    requires c >= 1
  {
    Ring(claims % c, takes % c)
  }

  lemma ModSub(a: nat, b: nat, c: nat)
    requires c >= 1 && b <= a < b + c
    ensures (a % c - b % c) % c == a - b
  {
    var k := a - b;
    ModAdd(b, k, c);
    ModNear(b % c + k, c);
    ModNear(a % c - b % c, c);
  }

  /** Counting claims and takes explains the ring: the queue length is the
      difference of the counts, a claim succeeds exactly while fewer than
      c - 1 slots are queued, and a take exactly while some slot is. */
  lemma {:induction false} HistorySpec(claims: nat, takes: nat, c: nat)
    requires IsPow2(c) && takes <= claims < takes + c
    ensures Queued(After(claims, takes, c), c) == claims - takes
    ensures Claim(After(claims, takes, c), c) ==
              if claims - takes == c - 1 then None else Some(After(claims + 1, takes, c))
    ensures Take(After(claims, takes, c), c) ==
              if claims == takes then None else Some(After(claims, takes + 1, c))
  {
    var g := After(claims, takes, c);
    ModSub(claims, takes, c);
    ClaimSpec(g, c);
    TakeSpec(g, c);
    assert (claims % c + 1) % c == (claims + 1) % c by {
      ModAdd(claims, 1, c);
    }
    assert (takes % c + 1) % c == (takes + 1) % c by {
      ModAdd(takes, 1, c);
    }
  }

  /** The reader runs one slot behind the writer: a claim fills the slot
      after w, while a take hands out slot r itself.  So the first claim on
      a fresh ring fills slot 1 and the take after it hands out slot 0,
      which no claim filled; and once the reader has caught up, the slot
      the latest claim filled is the reader's slot but is not handed out
      until the next claim. */
  lemma ReaderLagsOne(claims: nat, c: nat)
    requires IsPow2(c) && c >= 2 && claims >= 1
    ensures Claim(After(0, 0, c), c) == Some(Ring(1, 0))
    ensures Take(Ring(1, 0), c) == Some(Ring(1, 1))
    ensures var g := After(claims, claims, c); g.r == g.w == claims % c && Take(g, c) == None
  {
    HistorySpec(0, 0, c);
    HistorySpec(1, 0, c);
    HistorySpec(claims, claims, c);
  }

  /** First in, first out: the take numbered `takes` (from 0) hands out the
      slot that the claim numbered `takes` (from 1) filled, and no claim made
      since has reused that slot.  The very first take therefore hands out
      slot 0, which no claim has filled. */
  lemma {:induction false} FifoSlots(claims: nat, takes: nat, c: nat, k: nat)
    requires IsPow2(c) && takes < claims < takes + c
    requires takes < k <= claims
    ensures After(claims, takes, c).r == takes % c
    ensures k % c != takes % c
  {
    ModSub(k, takes, c);
    ModNear(0, c);
  }

  /** k claims in a row that stop at the first refusal, as ReceiveRxIQ makes
      one per USB frame: the ring after them, the slots claimed in order,
      and whether a claim was refused. */
  function ClaimUpTo(g: Ring, c: nat, k: nat): (run: (Ring, seq<nat>, bool))
    requires Valid(g, c)
    ensures Valid(run.0, c) && |run.1| <= k
    decreases k
  {
    if k == 0 then (g, [], false)
    else
      ClaimSpec(g, c);
      match Claim(g, c)
      case None => (g, [], true)
      case Some(g') =>
        var (h, slots, refused) := ClaimUpTo(g', c, k - 1);
        (h, [g'.w] + slots, refused)
  }

  /** One more claim after a run of k that was not refused and ended at h. */
  lemma {:induction false} ClaimUpToSnoc(g: Ring, c: nat, k: nat, h: Ring, slots: seq<nat>)
    requires Valid(g, c) && ClaimUpTo(g, c, k) == (h, slots, false)
    ensures Valid(h, c)
    ensures Claim(h, c).None? ==> ClaimUpTo(g, c, k + 1) == (h, slots, true)
    ensures Claim(h, c).Some? ==>
              ClaimUpTo(g, c, k + 1) == (Claim(h, c).value, slots + [Claim(h, c).value.w], false)
    decreases k
  {
    ClaimSpec(g, c);
    if k > 0 {
      var g' := Claim(g, c).value;
      var rest := ClaimUpTo(g', c, k - 1);
      assert ClaimUpTo(g, c, k) == (rest.0, [g'.w] + rest.1, rest.2);
      ClaimUpToSnoc(g', c, k - 1, h, rest.1);
      var next := ClaimUpTo(g', c, k);
      assert ClaimUpTo(g, c, k + 1) == (next.0, [g'.w] + next.1, next.2);
      if Claim(h, c).Some? {
        assert [g'.w] + (rest.1 + [Claim(h, c).value.w]) == ([g'.w] + rest.1) + [Claim(h, c).value.w];
      }
    } else if Claim(g, c).Some? {
      var g' := Claim(g, c).value;
      assert ClaimUpTo(g', c, 0) == (g', [], false);
      assert slots + [g'.w] == [g'.w] + [];
    }
  }

  /** The next claim of a run of two, after f unrefused ones that took the
      slots done: it takes a slot not taken yet, or it is refused and that
      ends the run. */
  lemma ClaimNext(g0: Ring, c: nat, f: nat, g: Ring, done: seq<nat>)
    requires Valid(g0, c) && f < 2 && ClaimUpTo(g0, c, f) == (g, done, false)
    ensures Valid(g, c)
    ensures Claim(g, c).Some? ==>
              && Claim(g, c).value.w !in done
              && ClaimUpTo(g0, c, f + 1) == (Claim(g, c).value, done + [Claim(g, c).value.w], false)
    ensures Claim(g, c).None? ==> ClaimUpTo(g0, c, 2) == (g, done, true)
  {
    ClaimSpec(g, c);
    ClaimUpToSnoc(g0, c, f, g, done);
    if f == 1 {
      assert done == [g.w];
      ModNear(g.w + 1, c);
    } else if Claim(g, c).None? {
      RefusedAtOnce(g0, c, 2);
    }
  }

  /** A first claim refused ends every run. */
  lemma RefusedAtOnce(g: Ring, c: nat, k: nat)
    requires Valid(g, c) && k >= 1 && Claim(g, c).None?
    ensures ClaimUpTo(g, c, k) == (g, [], true)
  {
  }

  /** The claims succeed while the ring has room and the first one refused
      ends the run, so there is one refusal at most. */
  lemma {:induction false} ClaimUpToCounts(g: Ring, c: nat, k: nat)
    requires Valid(g, c)
    ensures var (h, slots, refused) := ClaimUpTo(g, c, k);
            var q := Queued(g, c);
            && Valid(h, c) && h.r == g.r
            && (refused <==> q + k > c - 1)
            && |slots| == (if refused then c - 1 - q else k)
            && Queued(h, c) == q + |slots|
    decreases k
  {
    ClaimSpec(g, c);
    if k > 0 && Claim(g, c).Some? {
      ClaimUpToCounts(Claim(g, c).value, c, k - 1);
    }
  }

  /** The slots claimed are the ones after w, in order. */
  lemma {:induction false} ClaimUpToSlots(g: Ring, c: nat, k: nat)
    requires Valid(g, c)
    ensures var (h, slots, refused) := ClaimUpTo(g, c, k);
            && h.w == (g.w + |slots|) % c
            && forall i :: 0 <= i < |slots| ==> slots[i] == (g.w + 1 + i) % c
    decreases k
  {
    ClaimSpec(g, c);
    ModNear(g.w, c);
    if k > 0 && Claim(g, c).Some? {
      var g' := Claim(g, c).value;
      ClaimUpToSlots(g', c, k - 1);
      var (h, slots, refused) := ClaimUpTo(g', c, k - 1);
      assert ClaimUpTo(g, c, k) == (h, [g'.w] + slots, refused);
      ModAdd(g.w + 1, |slots|, c);
      ShiftSlots(g.w, c, slots, [g'.w] + slots);
    }
  }

  /** Putting slot w + 1 in front of the slots that follow it. */
  lemma ShiftSlots(w: nat, c: nat, slots: seq<nat>, all: seq<nat>)
    requires c >= 1 && all == [(w + 1) % c] + slots
    requires forall j :: 0 <= j < |slots| ==> slots[j] == ((w + 1) % c + 1 + j) % c
    ensures forall i :: 0 <= i < |all| ==> all[i] == (w + 1 + i) % c
  {
    forall i | 0 < i < |all|
      ensures all[i] == (w + 1 + i) % c
    {
      assert all[i] == slots[i - 1];
      ModAdd(w + 1, i, c);
    }
  }

  /** None of the slots claimed is r or a slot still queued for the reader:
      slot i of the run lies q + 1 + i places after r. */
  lemma ClaimsAvoidReader(g: Ring, c: nat, k: nat)
    requires Valid(g, c)
    ensures var slots := ClaimUpTo(g, c, k).1;
            forall i :: 0 <= i < |slots| ==>
              && (slots[i] - g.r) % c == Queued(g, c) + 1 + i
              && slots[i] != g.r && !Readable(g, c, slots[i])
  {
    ClaimUpToCounts(g, c, k);
    ClaimUpToSlots(g, c, k);
    var slots := ClaimUpTo(g, c, k).1;
    var q := Queued(g, c);
    assert |slots| <= c - 1 - q;
    forall i | 0 <= i < |slots|
      ensures (slots[i] - g.r) % c == q + 1 + i
      ensures slots[i] != g.r && !Readable(g, c, slots[i])
    {
      assert slots[i] == (g.w + 1 + i) % c;
      SlotAhead(g, c, i);
      ModNear(0, c);
    }
  }

  /** The slot i + 1 places after w lies q + 1 + i places after r. */
  lemma SlotAhead(g: Ring, c: nat, i: nat)
    requires Valid(g, c) && Queued(g, c) + 1 + i < c
    ensures (((g.w + 1 + i) % c) - g.r) % c == Queued(g, c) + 1 + i
  {
    var q := Queued(g, c);
    ModNear(g.w - g.r, c);
    var x := g.r + q + 1 + i;
    assert g.w + 1 + i == x || g.w + 1 + i == x - c;
    ModNear(g.w + 1 + i, c);
    ModNear(x, c);
    ModNear(x % c - g.r, c);
  }
}
