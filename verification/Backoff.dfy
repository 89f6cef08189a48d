/** The reconnect loop of the exchange clients: it dials, waits, and waits longer after every failure until
    the delay has reached a limit. Times are nanoseconds; dial outcomes and random draws are inputs. */
module Backoff {

  const SECOND := 1_000_000_000
  const START := 2_000_000_000
  const BACK_OFF_LIMIT := 600_000_000_000

  /** The delay after delay d when the random draw is r. Division truncates. */
  function Grow(d: nat, r: nat): nat { d * 2 + d / 100 * (20 + r) }

  /** waits are the first delays of a loop whose dials fail, as far as it goes. */
  ghost predicate IsSchedule(waits: seq<nat>, draw: nat -> nat) {
    && (|waits| > 0 ==> waits[0] == START)
    && (forall k :: 0 <= k < |waits| - 1 ==> Follows(waits, draw, k))
  }

  ghost predicate Follows(waits: seq<nat>, draw: nat -> nat, k: nat)
    requires k + 1 < |waits|
  {
    waits[k] < BACK_OFF_LIMIT && waits[k + 1] == Grow(waits[k], draw(k))
  }

  /** The random draws are taken from 0..9. */
  ghost predicate IsDraw(draw: nat -> nat) { forall n :: draw(n) < 10 }

  function Sum(waits: seq<nat>): nat {
    if |waits| == 0 then 0 else Sum(waits[..|waits| - 1]) + waits[|waits| - 1]
  }

  /** The loop dials until a dial succeeds, or until it has waited for a delay that is not below the limit;
      `waits` are the delays it waited for. */
  method Reconnect(dial: nat -> bool, draw: nat -> nat) returns (ok: bool, dials: nat, waits: seq<nat>)
    ensures dials > 0 && ok == dial(dials - 1) && forall k :: 0 <= k < dials - 1 ==> !dial(k)
    ensures IsSchedule(waits, draw) && |waits| == if ok then dials - 1 else dials
    ensures ok ==> forall k :: 0 <= k < |waits| ==> waits[k] < BACK_OFF_LIMIT
    ensures !ok ==> waits[dials - 1] >= BACK_OFF_LIMIT
  {
    var secToRecon: nat := START;
    dials, waits := 0, [];
    while true
      invariant |waits| == dials && secToRecon >= START && IsSchedule(waits + [secToRecon], draw)
      invariant forall k :: 0 <= k < dials ==> !dial(k) && waits[k] < BACK_OFF_LIMIT
      decreases BACK_OFF_LIMIT - secToRecon
    {
      ghost var before := waits + [secToRecon];
      dials := dials + 1;
      if dial(dials - 1) {
        FrontIsSchedule(before, draw);
        assert before[..|before| - 1] == waits;
        return true, dials, waits;
      }
      waits := waits + [secToRecon];
      if secToRecon < BACK_OFF_LIMIT {
        secToRecon := LongerDelay(secToRecon, draw(dials - 1));
        ScheduleGoesOn(before, draw);
      } else {
        return false, dials, waits;
      }
    }
  }

  method LongerDelay(secToRecon: nat, r: nat) returns (longer: nat)
    ensures longer == Grow(secToRecon, r) && longer >= 2 * secToRecon
  {
    var randomAdd := secToRecon / 100 * (20 + r);
    longer := secToRecon * 2 + randomAdd;
  }

  lemma ScheduleGoesOn(waits: seq<nat>, draw: nat -> nat)
    requires |waits| > 0 && IsSchedule(waits, draw) && waits[|waits| - 1] < BACK_OFF_LIMIT
    ensures IsSchedule(waits + [Grow(waits[|waits| - 1], draw(|waits| - 1))], draw)
  {
    var more := waits + [Grow(waits[|waits| - 1], draw(|waits| - 1))];
    forall k | 0 <= k < |more| - 1 ensures Follows(more, draw, k) {
      if k + 1 < |waits| { assert Follows(waits, draw, k); }
    }
  }

  lemma FrontIsSchedule(waits: seq<nat>, draw: nat -> nat)
    requires |waits| > 0 && IsSchedule(waits, draw)
    ensures IsSchedule(waits[..|waits| - 1], draw)
  {
    var front := waits[..|waits| - 1];
    forall k | 0 <= k < |front| - 1 ensures Follows(front, draw, k) { assert Follows(waits, draw, k); }
  }

  // ---------------------------------------------------------------- how far it can go

  /** A delay is between 2.2 and 2.29 times the one before it, up to rounding. */
  lemma GrowBounds(d: nat, r: nat)
    requires r < 10
    ensures 220 * d <= 100 * Grow(d, r) + 2000 && 100 * Grow(d, r) <= 229 * d
    ensures r == 0 ==> 100 * Grow(d, r) <= 220 * d
    ensures r == 9 ==> 229 * d <= 100 * Grow(d, r) + 2900
  {
    var q := d / 100;
    assert q * (20 + r) == 20 * q + q * r && 0 <= q * r <= 9 * q;
  }

  lemma StepBounds(waits: seq<nat>, draw: nat -> nat, k: nat)
    requires IsDraw(draw) && IsSchedule(waits, draw) && k + 1 < |waits|
    ensures 220 * waits[k] <= 100 * waits[k + 1] + 2000 && 100 * waits[k + 1] <= 229 * waits[k]
    ensures draw(k) == 0 ==> 100 * waits[k + 1] <= 220 * waits[k]
    ensures draw(k) == 9 ==> 229 * waits[k] <= 100 * waits[k + 1] + 2900
    ensures waits[k] < BACK_OFF_LIMIT
  {
    assert Follows(waits, draw, k);
    GrowBounds(waits[k], draw(k));
  }

  lemma FirstFiveSteps(waits: seq<nat>, draw: nat -> nat)
    requires IsDraw(draw) && IsSchedule(waits, draw) && |waits| > 0
    ensures waits[0] == START
    ensures forall k :: 0 <= k < |waits| && k < 5 ==> waits[k] < BACK_OFF_LIMIT / 10
    ensures |waits| > 4 ==> 46 * SECOND < waits[4] < 56 * SECOND
  {
    var n := |waits|;
    if n > 1 { StepBounds(waits, draw, 0); }
    if n > 2 { StepBounds(waits, draw, 1); }
    if n > 3 { StepBounds(waits, draw, 2); }
    if n > 4 { StepBounds(waits, draw, 3); }
  }

  lemma FirstSteps(waits: seq<nat>, draw: nat -> nat)
    requires IsDraw(draw) && IsSchedule(waits, draw) && |waits| > 0
    ensures waits[0] == START
    ensures forall k :: 0 <= k < |waits| && k < 7 ==> waits[k] < BACK_OFF_LIMIT
    ensures |waits| <= 9
    ensures |waits| == 9 ==> waits[8] >= BACK_OFF_LIMIT
  {
    var n := |waits|;
    FirstFiveSteps(waits, draw);
    if n > 5 { StepBounds(waits, draw, 4); }
    if n > 6 { StepBounds(waits, draw, 5); }
    if n > 7 { StepBounds(waits, draw, 6); }
    if n > 8 { StepBounds(waits, draw, 7); }
    if n > 9 { StepBounds(waits, draw, 8); }
  }

  /** With the largest draws the delay reaches the limit at the eighth dial, with the smallest it does not. */
  lemma EighthDelay(waits: seq<nat>, draw: nat -> nat)
    requires IsDraw(draw) && IsSchedule(waits, draw) && |waits| > 7
    ensures (forall n :: draw(n) == 9) ==> waits[7] >= BACK_OFF_LIMIT
    ensures (forall n :: draw(n) == 0) ==> waits[7] < BACK_OFF_LIMIT
  {
    StepBounds(waits, draw, 0);
    StepBounds(waits, draw, 1);
    StepBounds(waits, draw, 2);
    StepBounds(waits, draw, 3);
    StepBounds(waits, draw, 4);
    StepBounds(waits, draw, 5);
    StepBounds(waits, draw, 6);
  }

  /** All delays before the last one together are at most five sixths of the last one, up to rounding. */
  lemma {:induction false} SumBelowLast(waits: seq<nat>, draw: nat -> nat)
    requires IsDraw(draw) && IsSchedule(waits, draw) && |waits| > 0
    ensures 120 * Sum(waits[..|waits| - 1]) <= 100 * waits[|waits| - 1] + 2000 * |waits|
  {
    var n := |waits|;
    if n > 1 {
      var front := waits[..n - 1];
      FrontIsSchedule(waits, draw);
      SumBelowLast(front, draw);
      StepBounds(waits, draw, n - 2);
    }
  }

  /** When every dial fails, the loop stops after 8 or 9 dials whatever the draws are, no delay reaches 2.29
      times the limit, and the whole wait is under 2500 seconds. */
  lemma GivesUpSoon(waits: seq<nat>, draw: nat -> nat)
    requires IsDraw(draw) && IsSchedule(waits, draw) && |waits| > 0 && waits[|waits| - 1] >= BACK_OFF_LIMIT
    ensures |waits| == 8 || |waits| == 9
    ensures forall k :: 0 <= k < |waits| ==> 100 * waits[k] < 229 * BACK_OFF_LIMIT
    ensures Sum(waits) < 2500 * SECOND
  {
    var n := |waits|;
    FirstSteps(waits, draw);
    forall k | 0 <= k < n ensures 100 * waits[k] < 229 * BACK_OFF_LIMIT {
      if k > 0 { StepBounds(waits, draw, k - 1); }
    }
    StepBounds(waits, draw, n - 2);
    var front := waits[..n - 1];
    FrontIsSchedule(waits, draw);
    SumBelowLast(front, draw);
  }

  /** A server that never answers. The two numbers of dials both occur. */
  method AllDialsFail(draw: nat -> nat) returns (dials: nat, waits: seq<nat>)
    requires IsDraw(draw)
    ensures dials == 8 || dials == 9
    ensures |waits| == dials && Sum(waits) < 2500 * SECOND
    ensures forall k :: 0 <= k < dials ==> 100 * waits[k] < 229 * BACK_OFF_LIMIT
    ensures (forall n :: draw(n) == 9) ==> dials == 8
    ensures (forall n :: draw(n) == 0) ==> dials == 9
  {
    var ok;
    ok, dials, waits := Reconnect(n => false, draw);
    GivesUpSoon(waits, draw);
    EighthDelay(waits, draw);
    if dials == 9 { StepBounds(waits, draw, 7); }
  }
}
