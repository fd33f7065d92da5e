/**
 The bandwidth limiter of a worker (src/worker-bandwidth.c). Time is divided into
 windows of at least COUNT_UPDATE_MS; a packet is let through if it opens a window
 or if the window still has room for it.
 */
module Bandwidth {
  import opened Wrappers

  const COUNT_UPDATE_MS: nat := 500

  /** The state of a limiter. windows and charged are not in the code: the number of
      windows closed so far, and the kilobytes charged to them. */
  datatype Limiter = Limiter(
    transferredBytes: nat, allowedKb: nat, perCount: nat, kbPerSec: nat, windows: nat, charged: nat)

  /** bandwidth_init */
  function Init(kbPerSec: nat): (b: Limiter) {
    Limiter(0, 0, kbPerSec * COUNT_UPDATE_MS / 1000, kbPerSec, 0, 0)
  }

  /** MIN of a signed and an unsigned 64-bit number: the signed one is converted, so
      a negative one is never the smaller. */
  function MinMixed(t: int, k: nat): (r: nat)
    requires 0 <= t + WORD64
  {
    var u := if t < 0 then t + WORD64 else t;
    if u < k then u else k
  }

  /** The share of a window's kilobytes that is charged, when it lasted diff ms. */
  function Charge(b: Limiter, diff: nat): (c: nat)
    requires diff >= COUNT_UPDATE_MS
  {
    (b.transferredBytes / 1000 * COUNT_UPDATE_MS) / diff
  }

  lemma ChargeAtMost(b: Limiter, diff: nat)
    requires diff >= COUNT_UPDATE_MS
    ensures Charge(b, diff) <= b.transferredBytes / 1000
  {
    var k := b.transferredBytes / 1000;
    var c := Charge(b, diff);
    MulAtLeast(k, COUNT_UPDATE_MS, diff);
    if c > k {
      MulMore(c, k, diff);
    }
  }

  /** The charge is that share of the kilobytes, rounded down: of those sent in a window of
      diff ms, as many as go into half a second. */
  lemma ChargeIsShare(b: Limiter, diff: nat)
    requires diff >= COUNT_UPDATE_MS
    ensures Charge(b, diff) * diff <= b.transferredBytes / 1000 * 500 < (Charge(b, diff) + 1) * diff
  {
    var x := b.transferredBytes / 1000 * 500;
    assert x == diff * (x / diff) + x % diff;
  }

  lemma MulAtLeast(k: nat, a: nat, b: nat)
    requires a <= b
    ensures k * a <= k * b
  {
  }

  lemma MulMore(c: nat, k: nat, d: nat)
    requires c > k
    ensures c * d >= k * d + d
  {
    assert c * d == (k + 1) * d + (c - k - 1) * d;
  }

  /** The allowance of a window that opens after diff ms. */
  function NextAllowed(b: Limiter, diff: nat): (a: nat)
    requires diff >= COUNT_UPDATE_MS && b.transferredBytes < WORD64
  {
    ChargeAtMost(b, diff);
    MinMixed(b.perCount + b.allowedKb - Charge(b, diff), b.kbPerSec)
  }

  /** Where there is no debt, the allowance of the next window is one share, which is half a
      second's worth, and what was left over, but at most the rate. */
  lemma NextIsShareAndRest(b: Limiter, diff: nat)
    requires Budget(b) && diff >= COUNT_UPDATE_MS
    ensures var t := b.kbPerSec / 2 + b.allowedKb - Charge(b, diff);
            t >= 0 && NextAllowed(b, diff) == if t < b.kbPerSec then t else b.kbPerSec
  {
    ChargeAtMost(b, diff);
  }

  /** _bandwidth_update: the new state, and whether to send. */
  function Update(b: Limiter, bytes: nat, diff: nat): (r: (Limiter, bool))
    requires b.transferredBytes < WORD64
  {
    if diff >= COUNT_UPDATE_MS then
      (b.(allowedKb := NextAllowed(b, diff), transferredBytes := bytes,
          windows := b.windows + 1, charged := b.charged + Charge(b, diff)), true)
    else if b.transferredBytes + bytes > b.allowedKb * 1000 then (b, false)
    else (b.(transferredBytes := b.transferredBytes + bytes), true)
  }

  /** The budget: what is sent in the window stays in its allowance, which stays
      below the rate; and the allowance and what closed windows were charged come
      out of one share for each window closed. */
  predicate Budget(b: Limiter) {
    && b.transferredBytes <= 1000 * b.allowedKb && b.allowedKb <= b.kbPerSec
    && b.perCount == b.kbPerSec * COUNT_UPDATE_MS / 1000
    && b.allowedKb + b.charged <= b.perCount * b.windows
    && 1000 * b.kbPerSec < WORD64
  }

  /** A packet keeps the budget exactly when it does not open a window, or fits in the
      allowance of the window it opens; a packet of at most one share always does. */
  lemma UpdateKeepsBudget(b: Limiter, bytes: nat, diff: nat)
    requires Budget(b)
    ensures Budget(Update(b, bytes, diff).0) <==> diff < COUNT_UPDATE_MS || bytes <= 1000 * NextAllowed(b, diff)
    ensures bytes <= 1000 * b.perCount ==> Budget(Update(b, bytes, diff).0)
  {
    if diff >= COUNT_UPDATE_MS {
      ChargeAtMost(b, diff);
      assert b.perCount * (b.windows + 1) == b.perCount * b.windows + b.perCount;
    }
  }

  /** A packet of any size: its length and the time since the window opened. */
  datatype Packet = Packet(bytes: nat, diff: nat)

  /** Every packet is at most one share. */
  predicate Small(b: Limiter, ps: seq<Packet>) {
    forall p :: p in ps ==> p.bytes <= 1000 * b.perCount
  }

  ghost function Run(b: Limiter, ps: seq<Packet>): (r: Limiter)
    requires Budget(b) && Small(b, ps)
    decreases |ps|
  {
    if ps == [] then b
    else
      UpdateKeepsBudget(b, ps[0].bytes, ps[0].diff);
      Run(Update(b, ps[0].bytes, ps[0].diff).0, ps[1..])
  }

  /** Over every sequence of small packets the budget holds. */
  lemma {:induction false} RunKeepsBudget(b: Limiter, ps: seq<Packet>)
    requires Budget(b) && Small(b, ps)
    ensures Budget(Run(b, ps))
    decreases |ps|
  {
    if ps != [] {
      UpdateKeepsBudget(b, ps[0].bytes, ps[0].diff);
      RunKeepsBudget(Update(b, ps[0].bytes, ps[0].diff).0, ps[1..]);
    }
  }

  lemma StartsInBudget(kbPerSec: nat)
    requires 1000 * kbPerSec < WORD64
    ensures Budget(Init(kbPerSec))
  {
  }

  /** A debt is never collected: if a window is charged more than there is, the next one
      has the whole rate, because the mixed comparison takes what is left for large. */
  lemma DebtIsForgiven(b: Limiter, diff: nat)
    requires diff >= COUNT_UPDATE_MS && b.transferredBytes < WORD64 / 2 && b.kbPerSec < WORD64 / 2
    requires Charge(b, diff) > b.perCount + b.allowedKb
    ensures NextAllowed(b, diff) == b.kbPerSec
  {
    ChargeAtMost(b, diff);
  }

  /** Such a packet, which a worker's buffer of 16 KiB can hold: it gets through, overdraws
      the budget, and the next window has the whole rate. */
  lemma OversizeIsForgiven()
    ensures var b := Update(Init(10), 11_000, 500).0;
            && !Budget(b) && Update(Init(10), 11_000, 500).1
            && b.perCount + b.allowedKb - Charge(b, 500) < 0
            && NextAllowed(b, 500) == b.kbPerSec
  {
    var b := Update(Init(10), 11_000, 500).0;
    assert Charge(Init(10), 500) == 0;
    assert b == Limiter(11_000, 5, 5, 10, 1, 0);
    assert Charge(b, 500) == 11;
    DebtIsForgiven(b, 500);
  }

  /** The limiter in place. */
  class BandwidthState {
    var transferredBytes: nat
    var allowedKb: nat
    const perCount: nat
    const kbPerSec: nat
    ghost var windows: nat
    ghost var charged: nat

    constructor (kbPerSec: nat)
      ensures Value() == Init(kbPerSec)
      ensures 1000 * kbPerSec < WORD64 ==> Budget(Value())
    {
      transferredBytes, allowedKb, windows, charged := 0, 0, 0, 0;
      this.kbPerSec, perCount := kbPerSec, (kbPerSec * COUNT_UPDATE_MS) / 1000;
    }

    ghost function Value(): (b: Limiter)
      reads this
    {
      Limiter(transferredBytes, allowedKb, perCount, kbPerSec, windows, charged)
    }

    /** _bandwidth_update: a packet of at most one share keeps the limiter in budget, and
        one that is larger does so exactly if it opens no window or fits in the one it
        opens. Inside a window exactly the packets that fit are sent; one that is not
        sent changes nothing. */
    method BandwidthUpdate(bytes: nat, diff: nat) returns (send: bool)
      requires transferredBytes < WORD64
      modifies this
      ensures old(Budget(Value())) && bytes <= 1000 * perCount ==> Budget(Value())
      ensures old(Budget(Value())) ==> (Budget(Value()) <==> diff < COUNT_UPDATE_MS || bytes <= 1000 * allowedKb)
      ensures diff < COUNT_UPDATE_MS ==> (send <==> old(transferredBytes) + bytes <= 1000 * allowedKb)
      ensures !send ==> Value() == old(Value())
      ensures (Value(), send) == Update(old(Value()), bytes, diff)
    {
      ghost var b := Value();
      if Budget(b) { UpdateKeepsBudget(b, bytes, diff); }
      if diff >= COUNT_UPDATE_MS {
        ChargeAtMost(Value(), diff);
        var transferredKb := transferredBytes / 1000;
        transferredKb := (transferredKb * COUNT_UPDATE_MS) / diff;
        var remain := allowedKb - transferredKb;
        var t := perCount + remain;
        allowedKb := MinMixed(t, kbPerSec);
        transferredBytes := bytes;
        windows, charged := windows + 1, charged + transferredKb;
        return true;
      }
      var sum := transferredBytes + bytes;
      if sum > allowedKb * 1000 { return false; }
      transferredBytes := sum;
      return true;
    }
  }
}
