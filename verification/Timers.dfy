/** The hardware timers of the scheduler.

    A timer's counter is brought up to date only when somebody looks at it. However often that
    happens, the counter and its fixed-point remainder are proved to be what one update would
    give, and a deadline to be the first cycle at which the counter reaches its next stop. */
module Timers {
  import opened Bits
  import opened Division

  const EE_CLOCKRATE: nat := 294912000

  /** counter, target and mask of a running or paused timer; the remainder is in 256ths of a cycle */
  datatype State = State(counter: nat, target: nat, overflowMask: nat, clockrate: nat, remainder: nat, lastUpdate: nat,
                         paused: bool)

  function Max(a: int, b: int): int { if a < b then b else a }

  function Min(a: int, b: int): int { if a < b then a else b }

  /** EE cycles per tick, in 8-bit fixed point. */
  function Scale(clockrate: nat): (r: nat)
    requires 0 < clockrate <= EE_CLOCKRATE
    ensures r > 0
  {
    ScaleSmall(clockrate);
    EE_CLOCKRATE * 256 / clockrate
  }

  lemma ScaleSmall(clockrate: nat)
    requires 0 < clockrate <= EE_CLOCKRATE
    ensures EE_CLOCKRATE * 256 / clockrate > 0
  {
    var q := EE_CLOCKRATE * 256 / clockrate;
    assert EE_CLOCKRATE * 256 == q * clockrate + EE_CLOCKRATE * 256 % clockrate;
    assert q == 0 ==> q * clockrate == 0;
  }

  predicate Proper(t: State) {
    0 < t.clockrate <= EE_CLOCKRATE && t.remainder < Scale(t.clockrate)
  }

  /** What a timer is at a later cycle: its counter and remainder are the quotient and the
      remainder of all the time that passed. */
  function Updated(t: State, now: nat): State
    requires Proper(t) && t.lastUpdate <= now
  {
    hide Scale;
    if t.paused then t
    else
      var total := t.remainder + 256 * (now - t.lastUpdate);
      var scale := Scale(t.clockrate);
      t.(counter := t.counter + total / scale, remainder := total % scale, lastUpdate := now)
  }

  /** A paused timer stands still. */
  lemma PausedStands(t: State, now: nat)
    requires Proper(t) && t.lastUpdate <= now && t.paused
    ensures Updated(t, now) == t
  {
  }

  // ----- no time is lost

  /** The counter in fixed point, plus the remainder, grows by exactly the time that passed. */
  lemma TimeConserved(t: State, now: nat)
    requires Proper(t) && t.lastUpdate <= now && !t.paused
    ensures var u := Updated(t, now); var scale := Scale(t.clockrate);
      && Proper(u)
      && u.counter * scale + u.remainder == t.counter * scale + t.remainder + 256 * (now - t.lastUpdate)
  {
    hide Scale;
    var total, scale := t.remainder + 256 * (now - t.lastUpdate), Scale(t.clockrate);
    assert total == (total / scale) * scale + total % scale;
    assert (t.counter + total / scale) * scale == t.counter * scale + (total / scale) * scale;
  }

  lemma UpdatedTwice(t: State, now: nat, later: nat)
    requires Proper(t) && t.lastUpdate <= now <= later
    ensures Proper(Updated(t, now)) && Updated(t, now).lastUpdate <= now
    ensures Updated(Updated(t, now), later) == Updated(t, later)
  {
    hide Scale;
    if !t.paused {
      var first, more := t.remainder + 256 * (now - t.lastUpdate), 256 * (later - now);
      DivideOn(more, first, Scale(t.clockrate));
    }
  }

  /** Updates at a series of instants. */
  function Replayed(t: State, instants: seq<nat>): State
    requires Proper(t) && Ascending(t.lastUpdate, instants)
    decreases |instants|
  {
    hide Scale;
    if instants == [] then t
    else
      UpdatedTwice(t, instants[0], instants[0]);
      Later(t, instants);
      Replayed(Updated(t, instants[0]), instants[1..])
  }

  predicate Ascending(from: nat, instants: seq<nat>)
    decreases |instants|
  {
    instants != [] ==> from <= instants[0] && Ascending(instants[0], instants[1..])
  }

  lemma {:induction false} AscendingFrom(a: nat, b: nat, instants: seq<nat>)
    requires a <= b && Ascending(b, instants)
    ensures Ascending(a, instants)
  {
  }

  lemma Later(t: State, instants: seq<nat>)
    requires Proper(t) && instants != [] && Ascending(t.lastUpdate, instants)
    ensures Ascending(Updated(t, instants[0]).lastUpdate, instants[1..])
  {
    hide Scale;
    AscendingFrom(Updated(t, instants[0]).lastUpdate, instants[0], instants[1..]);
  }

  lemma {:induction false} LastIsLater(from: nat, instants: seq<nat>)
    requires instants != [] && Ascending(from, instants)
    ensures from <= instants[|instants| - 1]
    decreases |instants|
  {
    if |instants| > 1 {
      LastIsLater(instants[0], instants[1..]);
    }
  }

  /** However often a timer is looked at, it ends up where a single look would take it. */
  lemma {:induction false} PathIndependent(t: State, instants: seq<nat>)
    requires Proper(t) && instants != [] && Ascending(t.lastUpdate, instants)
    ensures t.lastUpdate <= instants[|instants| - 1]
    ensures Replayed(t, instants) == Updated(t, instants[|instants| - 1])
    decreases |instants|
  {
    hide Updated, Scale;
    LastIsLater(t.lastUpdate, instants);
    UpdatedTwice(t, instants[0], instants[0]);
    Later(t, instants);
    var u := Updated(t, instants[0]);
    if |instants| > 1 {
      LastIsLater(instants[0], instants[1..]);
      PathIndependent(u, instants[1..]);
      UpdatedTwice(t, instants[0], instants[|instants| - 1]);
    }
  }

  // ----- pausing

  /** A timer that is paused at cycle a and goes on at cycle b. */
  function PausedBetween(t: State, a: nat, b: nat): State
    requires Proper(t) && t.lastUpdate <= a <= b
  {
    Updated(t, a).(lastUpdate := b)
  }

  /** The cycles of a pause do not count, and the part of a tick before it does. */
  lemma PauseNotCounted(t: State, a: nat, b: nat, c: nat)
    requires Proper(t) && !t.paused && t.lastUpdate <= a <= b <= c
    ensures Proper(PausedBetween(t, a, b)) && !PausedBetween(t, a, b).paused
    ensures Updated(PausedBetween(t, a, b), c) == Updated(t, c - (b - a)).(lastUpdate := c)
  {
    hide Scale;
    UpdatedTwice(t, a, c - (b - a));
  }

  // ----- deadlines

  /** EE cycles for a number of ticks. */
  function ToEeCycles(ticks: nat, clockrate: nat): nat
    requires clockrate > 0
  {
    ticks * EE_CLOCKRATE / clockrate
  }

  /** calculate_timer_event_delta: cycles until the timer's next event, at least 8. */
  function DeadlineDelta(t: State): int
    requires Proper(t) && t.counter <= t.overflowMask
  {
    if t.paused then 0x3FFF_FFFF_FFFF_FFFF
    else
      var overflowDelta := ToEeCycles(t.overflowMask + 1 - t.counter, t.clockrate) - t.remainder / 256;
      if t.target <= t.counter then Max(overflowDelta, 8)
      else
        var targetDelta := ToEeCycles(And(t.target - t.counter, t.overflowMask), t.clockrate) - t.remainder / 256;
        Max(Min(overflowDelta, targetDelta), 8)
  }

  /** The counter value the timer stops at next: a target that is still ahead and can be
      reached, or overflow. */
  function Stop(t: State): nat {
    if t.counter < t.target <= t.overflowMask then t.target else t.overflowMask + 1
  }

  /** d cycles from now is the first time the counter has come to c. */
  ghost predicate FirstReaches(t: State, c: nat, d: nat)
    requires Proper(t)
  {
    CounterAt(t, d) >= c && forall e: nat :: e < d ==> CounterAt(t, e) < c
  }

  /** What the counter will read in d cycles. */
  function CounterAt(t: State, d: nat): nat
    requires Proper(t)
  {
    Updated(t, t.lastUpdate + d).counter
  }

  /** The mask covers all bits up to some place. */
  ghost predicate IsMask(mask: nat) {
    exists k: nat :: mask == Pow2(k) - 1
  }

  /** The clock is a whole number of EE cycles. */
  predicate Divides(clockrate: nat) { clockrate > 0 && EE_CLOCKRATE % clockrate == 0 }

  lemma {:induction false} MaskKeeps(x: nat, k: nat)
    ensures And(x, Pow2(k) - 1) <= Pow2(k) - 1
    ensures x < Pow2(k) ==> And(x, Pow2(k) - 1) == x
  {
    if k > 0 && x != 0 {
      MaskKeeps(x / 2, k - 1);
      assert (Pow2(k) - 1) / 2 == Pow2(k - 1) - 1 && (Pow2(k) - 1) % 2 == 1;
    }
  }

  lemma WholeCycles(clockrate: nat)
    requires Divides(clockrate) && clockrate <= EE_CLOCKRATE
    ensures var r := EE_CLOCKRATE / clockrate;
      && r > 0 && Scale(clockrate) == 256 * r && forall ticks: nat :: ToEeCycles(ticks, clockrate) == ticks * r
  {
    var r := EE_CLOCKRATE / clockrate;
    assert EE_CLOCKRATE == r * clockrate;
    assert r == 0 ==> r * clockrate == 0;
    assert (256 * r) * clockrate == 256 * (r * clockrate);
    Quotient(EE_CLOCKRATE * 256, 256 * r, 0, clockrate);
    forall ticks: nat ensures ToEeCycles(ticks, clockrate) == ticks * r {
      assert (ticks * r) * clockrate == ticks * (r * clockrate);
      Quotient(ticks * EE_CLOCKRATE, ticks * r, 0, clockrate);
    }
  }

  lemma FixedPointQuotient(x: nat, b: nat, r: nat)
    requires b < 256 && r > 0
    ensures (256 * x + b) / (256 * r) == x / r
  {
    var q, e := x / r, x % r;
    assert x == q * r + e;
    assert q * (256 * r) == 256 * (q * r);
    Quotient(256 * x + b, q, 256 * e + b, 256 * r);
  }

  /** With r cycles to a tick, the counter after d cycles. */
  lemma CounterAfter(t: State, d: nat, r: nat, ticks: nat)
    requires Proper(t) && !t.paused && r > 0 && Scale(t.clockrate) == 256 * r && ticks > 0
    ensures ticks * r - t.remainder / 256 > 0
    ensures CounterAt(t, d) >= t.counter + ticks <==> d >= ticks * r - t.remainder / 256
  {
    hide Scale;
    var a, b := t.remainder / 256, t.remainder % 256;
    assert t.remainder + 256 * d == 256 * (a + d) + b;
    FixedPointQuotient(a + d, b, r);
    QuotientAtLeast(a + d, r, ticks);
    assert ticks * r >= r;
  }

  /** For clock rates that divide the EE's, the first cycle at which the counter comes ticks
      further on. */
  lemma ReachedFirst(t: State, r: nat, ticks: nat)
    requires Proper(t) && !t.paused && r > 0 && Scale(t.clockrate) == 256 * r && ticks > 0
    ensures ticks * r - t.remainder / 256 > 0
    ensures FirstReaches(t, t.counter + ticks, ticks * r - t.remainder / 256)
  {
    hide Scale, CounterAt;
    CounterAfter(t, 0, r, ticks);
    var d := ticks * r - t.remainder / 256;
    CounterAfter(t, d, r, ticks);
    forall e: nat | e < d ensures CounterAt(t, e) < t.counter + ticks {
      CounterAfter(t, e, r, ticks);
    }
  }

  /** The target's part of the deadline is taken modulo the mask. */
  function TicksToTarget(t: State): nat
    requires t.target > t.counter
  {
    And(t.target - t.counter, t.overflowMask)
  }

  /** The cycles to the timer's next stop. */
  lemma StopReached(t: State) returns (d: nat)
    requires Proper(t) && !t.paused && t.counter <= t.overflowMask && Divides(t.clockrate)
    ensures FirstReaches(t, Stop(t), d) && d > 0
    ensures var r := EE_CLOCKRATE / t.clockrate; d == (Stop(t) - t.counter) * r - t.remainder / 256
  {
    hide Scale, CounterAt;
    WholeCycles(t.clockrate);
    var r := EE_CLOCKRATE / t.clockrate;
    ReachedFirst(t, r, Stop(t) - t.counter);
    d := (Stop(t) - t.counter) * r - t.remainder / 256;
  }

  /** For clock rates that divide the EE's, the deadline is the first cycle at which the
      counter reaches its next stop, but at least 8 cycles away, exactly when the target can be
      reached, or is passed, or its distance modulo the mask is no shorter than the way to
      overflow, or all of that is within 8 cycles. A target above the mask otherwise wakes the
      timer early. */
  lemma DeadlineExactIff(t: State, d: nat)
    requires Proper(t) && !t.paused && t.counter <= t.overflowMask && IsMask(t.overflowMask) && Divides(t.clockrate)
    requires FirstReaches(t, Stop(t), d)
    ensures DeadlineDelta(t) == Max(d, 8) <==>
      t.target <= t.overflowMask || TicksToTarget(t) >= t.overflowMask + 1 - t.counter || d <= 8
  {
    hide Scale, CounterAt, ToEeCycles, And;
    var e := StopReached(t);
    FirstIsUnique(t, Stop(t), d, e);
    WholeCycles(t.clockrate);
    var r := EE_CLOCKRATE / t.clockrate;
    var k: nat :| t.overflowMask == Pow2(k) - 1;
    if t.target > t.counter {
      MaskKeeps(t.target - t.counter, k);
      MulMonotone(t.overflowMask + 1 - t.counter, TicksToTarget(t), r);
      MulMonotone(TicksToTarget(t), t.overflowMask + 1 - t.counter, r);
    }
  }

  lemma FirstIsUnique(t: State, c: nat, d: nat, e: nat)
    requires Proper(t) && FirstReaches(t, c, d) && FirstReaches(t, c, e)
    ensures d == e
  {
    hide CounterAt;
  }

  // ----- any clock rate

  /** Cycles by the clock rate itself and by its fixed-point scale. */
  lemma CyclesAndScale(ticks: nat, clockrate: nat)
    requires 0 < clockrate <= EE_CLOCKRATE
    ensures ticks * Scale(clockrate) < 256 * (ToEeCycles(ticks, clockrate) + 1)
    ensures 256 * ToEeCycles(ticks, clockrate) <= ticks * Scale(clockrate) + ticks
  {
    hide Scale, ToEeCycles;
    CyclesBounds(ticks, clockrate);
    ScaleBelow(ticks, Scale(clockrate), ToEeCycles(ticks, clockrate), clockrate);
    ScaleAbove(ticks, Scale(clockrate), ToEeCycles(ticks, clockrate), clockrate);
  }

  lemma ScaleBelow(ticks: nat, scale: nat, x: nat, clockrate: nat)
    requires scale * clockrate <= 256 * EE_CLOCKRATE && ticks * EE_CLOCKRATE < (x + 1) * clockrate
    ensures ticks * scale < 256 * (x + 1)
  {
    MulGrows(scale * clockrate, 256 * EE_CLOCKRATE, ticks);
    assert (ticks * scale) * clockrate == (scale * clockrate) * ticks;
    assert (256 * (x + 1)) * clockrate == 256 * ((x + 1) * clockrate);
    Cancel(ticks * scale, 256 * (x + 1), clockrate);
  }

  lemma ScaleAbove(ticks: nat, scale: nat, x: nat, clockrate: nat)
    requires clockrate > 0 && 256 * EE_CLOCKRATE < (scale + 1) * clockrate && x * clockrate <= ticks * EE_CLOCKRATE
    ensures 256 * x <= ticks * scale + ticks
  {
    MulGrows(256 * EE_CLOCKRATE, (scale + 1) * clockrate, ticks);
    assert ((scale + 1) * clockrate) * ticks == (ticks * (scale + 1)) * clockrate;
    assert (256 * x) * clockrate == 256 * (x * clockrate);
    CancelWeak(256 * x, ticks * (scale + 1), clockrate);
  }

  lemma CyclesBounds(ticks: nat, clockrate: nat)
    requires 0 < clockrate <= EE_CLOCKRATE
    ensures var x := ToEeCycles(ticks, clockrate); x * clockrate <= ticks * EE_CLOCKRATE < (x + 1) * clockrate
    ensures var scale := Scale(clockrate);
      scale * clockrate <= 256 * EE_CLOCKRATE < (scale + 1) * clockrate
  {
    Floor(ticks * EE_CLOCKRATE, clockrate);
    Floor(EE_CLOCKRATE * 256, clockrate);
  }

  lemma Floor(x: nat, n: nat)
    requires n > 0
    ensures x / n * n <= x < (x / n + 1) * n
  {
  }

  lemma Cancel(a: nat, b: nat, n: nat)
    requires a * n < b * n
    ensures a < b
  {
  }

  lemma CancelWeak(a: nat, b: nat, n: nat)
    requires n > 0 && a * n <= b * n
    ensures a <= b
  {
  }

  lemma MoreCycles(a: nat, b: nat, clockrate: nat)
    requires clockrate > 0 && a <= b
    ensures ToEeCycles(a, clockrate) <= ToEeCycles(b, clockrate)
  {
    MulMonotone(a, b, EE_CLOCKRATE);
    var x, y := ToEeCycles(a, clockrate), ToEeCycles(b, clockrate);
    Floor(a * EE_CLOCKRATE, clockrate);
    Floor(b * EE_CLOCKRATE, clockrate);
    Cancel(x, y + 1, clockrate);
  }

  /** The counter comes so many ticks further when the time makes them up. */
  lemma ReachedWhen(t: State, ticks: nat, d: nat)
    requires Proper(t) && !t.paused
    ensures CounterAt(t, d) >= t.counter + ticks <==> t.remainder + 256 * d >= ticks * Scale(t.clockrate)
  {
    hide Scale;
    QuotientAtLeast(t.remainder + 256 * d, Scale(t.clockrate), ticks);
  }

  /** The deadline in ticks: the way to the next stop. */
  lemma DeadlineTicks(t: State)
    requires Proper(t) && !t.paused && t.counter <= t.overflowMask && IsMask(t.overflowMask)
    requires t.target <= t.overflowMask || TicksToTarget(t) >= t.overflowMask + 1 - t.counter
    ensures DeadlineDelta(t) == Max(ToEeCycles(Stop(t) - t.counter, t.clockrate) - t.remainder / 256, 8)
  {
    hide ToEeCycles, And;
    var k: nat :| t.overflowMask == Pow2(k) - 1;
    if t.target > t.counter {
      MaskKeeps(t.target - t.counter, k);
      if t.target <= t.overflowMask {
        MoreCycles(TicksToTarget(t), t.overflowMask + 1 - t.counter, t.clockrate);
      } else {
        MoreCycles(t.overflowMask + 1 - t.counter, TicksToTarget(t), t.clockrate);
      }
    }
  }

  /** Whatever the clock rate: when a target can be reached or is passed, the deadline is at
      most one cycle before the first at which the counter reaches its next stop, and at most
      one cycle for every 256 ticks behind it, but for the least delay. */
  lemma DeadlineClose(t: State, d: nat)
    requires Proper(t) && !t.paused && t.counter <= t.overflowMask && IsMask(t.overflowMask)
    requires t.target <= t.overflowMask || TicksToTarget(t) >= t.overflowMask + 1 - t.counter
    requires FirstReaches(t, Stop(t), d)
    ensures d - 1 <= DeadlineDelta(t) <= Max(d + 1 + (Stop(t) - t.counter) / 256, 8)
  {
    hide Scale, CounterAt, ToEeCycles, And, DeadlineDelta, TicksToTarget, Proper, IsMask;
    var ticks := Stop(t) - t.counter;
    ProperRate(t);
    var x := ToEeCycles(ticks, t.clockrate);
    DeadlineTicks(t);
    CyclesAndScale(ticks, t.clockrate);
    ReachedWhen(t, ticks, d);
    if d > x - t.remainder / 256 + 1 {
      var e := if x < t.remainder / 256 then 0 else x - t.remainder / 256 + 1;
      ReachedWhen(t, ticks, e);
    }
  }

  lemma ProperRate(t: State)
    requires Proper(t)
    ensures 0 < t.clockrate <= EE_CLOCKRATE
  {
  }

  /** Going on after a pause, a timer with a mask of up to 32 bits is re-timed far beyond its
      next stop, as it still counts as paused while its deadline is computed. */
  lemma UnpausedOversleeps(t: State, d: nat)
    requires Proper(t) && t.paused && t.counter <= t.overflowMask <= 0xFFFF_FFFF
    requires FirstReaches(t.(paused := false), Stop(t), d)
    ensures DeadlineDelta(t) == 0x3FFF_FFFF_FFFF_FFFF > d + 0x1000_0000_0000_0000
  {
    hide Scale, CounterAt;
    var u, ticks := t.(paused := false), Stop(t) - t.counter;
    var e := 0x2000_0000_0000_0000;
    ScaleBound(t.clockrate);
    MulGrows(ticks, 0x1_0000_0000, Scale(t.clockrate));
    MulGrows(Scale(t.clockrate), 256 * EE_CLOCKRATE, 0x1_0000_0000);
    ReachedWhen(u, ticks, e);
    assert d <= e;
  }

  lemma ScaleBound(clockrate: nat)
    requires 0 < clockrate <= EE_CLOCKRATE
    ensures Scale(clockrate) <= 256 * EE_CLOCKRATE
  {
    Floor(EE_CLOCKRATE * 256, clockrate);
    MulGrows(1, clockrate, Scale(clockrate));
  }

  /** A timer whose target was never set wakes one tick before its first overflow. */
  lemma UnsetTargetWakesEarly()
    ensures var t := State(0, 0x7FFF_FFFF_FFFF_FFFF, 0xFFFF, EE_CLOCKRATE / 2, 0, 0, false);
      && Proper(t) && DeadlineDelta(t) == 2 * 0xFFFF && FirstReaches(t, Stop(t), 2 * 0x1_0000)
  {
    var t := State(0, 0x7FFF_FFFF_FFFF_FFFF, 0xFFFF, EE_CLOCKRATE / 2, 0, 0, false);
    hide CounterAt, Scale, And, ToEeCycles;
    WholeCycles(t.clockrate);
    ReachedFirst(t, 2, 0x1_0000);
    AllOnesAnd();
  }

  lemma AllOnesAnd()
    ensures And(0x7FFF_FFFF_FFFF_FFFF, 0xFFFF) == 0xFFFF
  {
    OnesAnd(63, 16);
    PowersHere();
  }

  lemma {:induction false} OnesAnd(n: nat, k: nat)
    requires k <= n
    ensures And(Pow2(n) - 1, Pow2(k) - 1) == Pow2(k) - 1
  {
    if k > 0 {
      OnesAnd(n - 1, k - 1);
      assert (Pow2(n) - 1) / 2 == Pow2(n - 1) - 1 && (Pow2(k) - 1) / 2 == Pow2(k - 1) - 1;
    }
  }

  lemma PowersHere()
    ensures Pow2(16) == 0x1_0000 && Pow2(63) == 0x8000_0000_0000_0000
  {
    Pow2Of32();
    assert Pow2(36) == 0x10_0000_0000;
    assert Pow2(40) == 0x100_0000_0000;
    assert Pow2(44) == 0x1000_0000_0000;
    assert Pow2(48) == 0x1_0000_0000_0000;
    assert Pow2(52) == 0x10_0000_0000_0000;
    assert Pow2(56) == 0x100_0000_0000_0000;
    assert Pow2(60) == 0x1000_0000_0000_0000;
  }

  // ----- the timer itself

  /** The ticks in delta, plus those its remainder makes up together with the old one. */
  method Carry(remainderClocks: nat, delta: nat, clockScale: nat) returns (ticks: nat, rest: nat)
    requires clockScale > 0
    ensures ticks == (remainderClocks + delta) / clockScale && rest == (remainderClocks + delta) % clockScale
  {
    DivideOn(remainderClocks, delta, clockScale);
    rest := remainderClocks + delta % clockScale;
    NothingCarried(rest, clockScale);
    var remainderDelta: nat := rest / clockScale;
    ticks := delta / clockScale;
    if remainderDelta > 0 {
      rest := rest % clockScale;
      ticks := ticks + remainderDelta;
    }
  }

  /** What becomes of the time of a timer's event: it is kept, put off to the end of time, or
      set some cycles ahead. */
  datatype Retiming = Kept | PutOff | In(delay: int)

  class Timer {
    var counter: nat
    var target: nat
    var overflowMask: nat
    var clockrate: nat
    var remainderClocks: nat
    var lastUpdate: nat
    var paused: bool

    ghost function View(): State
      reads this
    {
      State(counter, target, overflowMask, clockrate, remainderClocks, lastUpdate, paused)
    }

    function Deadline(): int
      requires Proper(View()) && counter <= overflowMask
      reads this
    {
      DeadlineDelta(State(counter, target, overflowMask, clockrate, remainderClocks, lastUpdate, paused))
    }

    /** update_timer_counter: the whole ticks of the time that passed, then those the remainder
        makes up. */
    method UpdateCounter(now: nat)
      requires Proper(View()) && lastUpdate <= now
      modifies `counter, `remainderClocks, `lastUpdate
      ensures View() == Updated(old(View()), now) && Proper(View())
    {
      if paused {
        return;
      }
      var delta := 256 * (now - lastUpdate);
      lastUpdate := now;
      var ticks, rest := Carry(remainderClocks, delta, Scale(clockrate));
      remainderClocks := rest;
      counter := counter + ticks;
    }

    /** get_timer_counter */
    method GetCounter(now: nat) returns (c: nat)
      requires Proper(View()) && lastUpdate <= now
      modifies `counter, `remainderClocks, `lastUpdate
      ensures View() == Updated(old(View()), now) && Proper(View()) && c == counter
    {
      if !paused {
        UpdateCounter(now);
      }
      c := counter;
    }

    /** set_timer_target, with the delay it re-times the timer's event to */
    method SetTarget(value: nat, now: nat) returns (retiming: Retiming)
      requires Proper(View()) && lastUpdate <= now
      requires Updated(View(), now).counter <= overflowMask
      modifies `counter, `remainderClocks, `lastUpdate, `target
      ensures View() == Updated(old(View()), now).(target := value) && Proper(View())
      ensures retiming == if paused then Kept else In(DeadlineDelta(View()))
    {
      if !paused {
        UpdateCounter(now);
      }
      target := value;
      retiming := Kept;
      if !paused {
        retiming := In(Deadline());
      }
    }

    /** set_timer_counter: the remainder stays */
    method SetCounter(value: nat, now: nat) returns (retiming: Retiming)
      requires Proper(View()) && lastUpdate <= now && value <= overflowMask
      modifies `counter, `remainderClocks, `lastUpdate
      ensures View() == Updated(old(View()), now).(counter := value) && Proper(View())
      ensures retiming == if paused then Kept else In(DeadlineDelta(View()))
    {
      if !paused {
        UpdateCounter(now);
      }
      counter := value;
      retiming := Kept;
      if !paused {
        retiming := In(Deadline());
      }
    }

    /** set_timer_clockrate: what was left of a tick is dropped */
    method SetClockrate(rate: nat, now: nat) returns (retiming: Retiming)
      requires Proper(View()) && lastUpdate <= now && 0 < rate <= EE_CLOCKRATE
      requires Updated(View(), now).counter <= overflowMask
      modifies `counter, `remainderClocks, `lastUpdate, `clockrate
      ensures View() == Updated(old(View()), now).(clockrate := rate, remainder := 0) && Proper(View())
      ensures retiming == if paused then Kept else In(DeadlineDelta(View()))
    {
      if !paused {
        UpdateCounter(now);
      }
      clockrate := rate;
      remainderClocks := 0;
      retiming := Kept;
      if !paused {
        retiming := In(Deadline());
      }
    }

    /** set_timer_pause: a timer that goes on is re-timed while it still counts as paused. */
    method SetPause(pausing: bool, now: nat) returns (retiming: Retiming)
      requires Proper(View()) && lastUpdate <= now && counter <= overflowMask
      modifies `counter, `remainderClocks, `lastUpdate, `paused
      ensures Proper(View()) && paused == pausing
      ensures old(paused) == pausing ==> View() == old(View()) && retiming == Kept
      ensures !old(paused) && pausing ==>
        View() == Updated(old(View()), now).(paused := true) && retiming == PutOff
      ensures old(paused) && !pausing ==>
        View() == old(View()).(paused := false, lastUpdate := now) && retiming == In(0x3FFF_FFFF_FFFF_FFFF)
    {
      retiming := Kept;
      if paused == pausing {
        return;
      }
      if pausing {
        UpdateCounter(now);
        retiming := PutOff;
      } else {
        retiming := In(Deadline());
        lastUpdate := now;
      }
      paused := pausing;
    }
  }
}
