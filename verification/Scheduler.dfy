/** The event scheduler and the loop of the emulator that drives it.

    Pending events sit in a list with a cached lower bound of their times. Whatever events the
    components and the handlers add, each event is proved to fire at exactly its time, events
    of one instant in the order they were added, and a frame to end after exactly its number
    of cycles. */
module Scheduler {

  datatype Func = VblankStart | VblankEnd | Hblank | Spu | GsVblank | Timer | Other

  datatype Event = Event(id: nat, time: int, func: Func)

  /** An event that was run, and the cycle count at that moment. */
  datatype Firing = Firing(event: Event, at: int)

  const CYCLES_PER_FRAME: int := 4920115
  const VBLANK_START_CYCLES: int := 4489019
  const HBLANK_CYCLES: int := 18742
  const GS_VBLANK_DELAY: int := 65622
  const SPU_CYCLES: int := 6144
  const MAX_CYCLES: int := 32
  const INT64_MAX: int := 0x7FFF_FFFF_FFFF_FFFF
  /** What process_events starts its minimum from. */
  const FAR_FUTURE: int := 0x7FFF_FFFF_0000_0000
  /** Cycle counts and delays stay below this: 2^61 cycles last two centuries. */
  const HORIZON: int := 0x2000_0000_0000_0000

  function Min(a: int, b: int): int { if a < b then a else b }

  /** A sum in a signed 64-bit register. */
  function Wrap64(x: int): int {
    if x > INT64_MAX then x - 0x1_0000_0000_0000_0000 else x
  }

  // ----- the list of events

  predicate InOrder(events: seq<Event>) {
    forall i, j :: 0 <= i < j < |events| ==> events[i].id < events[j].id
  }

  predicate NoneBefore(events: seq<Event>, time: int) {
    forall i :: 0 <= i < |events| ==> time <= events[i].time
  }

  predicate NoneAfterId(events: seq<Event>, id: nat) {
    forall i :: 0 <= i < |events| ==> events[i].id < id
  }

  /** How many events are due. */
  function DueCount(events: seq<Event>, now: int): nat {
    if events == [] then 0
    else DueCount(events[..|events| - 1], now) + if events[|events| - 1].time <= now then 1 else 0
  }

  lemma {:induction false} DueConcat(a: seq<Event>, b: seq<Event>, now: int)
    ensures DueCount(a + b, now) == DueCount(a, now) + DueCount(b, now)
  {
    if b == [] {
      assert a + b == a;
    } else {
      DueConcat(a, b[..|b| - 1], now);
      assert (a + b)[..|a + b| - 1] == a + b[..|b| - 1];
    }
  }

  lemma {:induction false} NoneDue(events: seq<Event>, now: int)
    requires forall i :: 0 <= i < |events| ==> now < events[i].time
    ensures DueCount(events, now) == 0
  {
    if events != [] {
      NoneDue(events[..|events| - 1], now);
    }
  }

  lemma DueWithout(events: seq<Event>, i: nat, now: int)
    requires i < |events|
    ensures DueCount(events, now)
         == DueCount(events[..i] + events[i + 1..], now) + if events[i].time <= now then 1 else 0
  {
    assert events == (events[..i] + [events[i]]) + events[i + 1..];
    DueConcat(events[..i] + [events[i]], events[i + 1..], now);
    DueConcat(events[..i], [events[i]], now);
    DueConcat(events[..i], events[i + 1..], now);
    DueOne(events[i], now);
  }

  lemma DueOne(e: Event, now: int)
    ensures DueCount([e], now) == if e.time <= now then 1 else 0
  {
    assert [e][..0] == [];
  }

  // ----- the history

  /** Firings are on time, and in the order of their times, then of their ids. */
  ghost predicate FiredInOrder(fired: seq<Firing>) {
    && (forall i :: 0 <= i < |fired| ==> fired[i].at == fired[i].event.time)
    && (forall i, j :: 0 <= i < j < |fired| ==> Before(fired[i].event, fired[j].event))
  }

  predicate Before(e: Event, f: Event) {
    e.time < f.time || (e.time == f.time && e.id < f.id)
  }

  /** Nothing that fired belongs after something still pending. */
  ghost predicate FiredBefore(fired: seq<Firing>, events: seq<Event>) {
    forall i, j :: 0 <= i < |fired| && 0 <= j < |events| ==> Before(fired[i].event, events[j])
  }

  /** Every event that was added is pending or fired at its time. Timers may be re-timed, so
      the claim is about the others. */
  ghost predicate Accounted(added: set<Event>, events: seq<Event>, fired: seq<Firing>) {
    forall e :: e in added && e.func != Timer ==> e in events || Firing(e, e.time) in fired
  }

  ghost predicate PendingId(events: seq<Event>, id: nat) {
    exists i :: 0 <= i < |events| && events[i].id == id
  }

  ghost predicate FiredId(fired: seq<Firing>, id: nat) {
    exists i :: 0 <= i < |fired| && fired[i].event.id == id
  }

  /** Every id that was given out, a timer's too, is pending or fired. */
  ghost predicate NoneLost(events: seq<Event>, fired: seq<Firing>, next: nat) {
    forall id: nat :: id < next ==> PendingId(events, id) || FiredId(fired, id)
  }

  ghost predicate Scheduled(added: set<Event>, func: Func, time: int) {
    exists e :: e in added && e.func == func && e.time == time
  }

  /** What a handler that ran at cycle `at` has scheduled. */
  ghost predicate Follows(func: Func, at: int, added: set<Event>) {
    && (func == Hblank ==> Scheduled(added, Hblank, at + 18742))
    && (func == Spu ==> Scheduled(added, Spu, at + 6144))
    && (func == VblankStart ==> Scheduled(added, GsVblank, at + 65622))
  }

  ghost predicate Followed(fired: seq<Firing>, added: set<Event>) {
    forall i :: 0 <= i < |fired| ==> Follows(fired[i].event.func, fired[i].at, added)
  }

  lemma FollowsMore(func: Func, at: int, added: set<Event>, more: set<Event>)
    requires Follows(func, at, added) && added <= more
    ensures Follows(func, at, more)
  {
  }

  lemma FollowedMore(fired: seq<Firing>, added: set<Event>, more: set<Event>)
    requires Followed(fired, added) && added <= more
    ensures Followed(fired, more)
  {
    hide Follows;
    forall i | 0 <= i < |fired| ensures Follows(fired[i].event.func, fired[i].at, more) {
      FollowsMore(fired[i].event.func, fired[i].at, added, more);
    }
  }

  /** What holds of the pending and the past events at cycle `now`. */
  ghost predicate Sound(events: seq<Event>, fired: seq<Firing>, added: set<Event>, next: nat, now: int) {
    && InOrder(events) && NoneAfterId(events, next) && NoneBefore(events, now)
    && FiredInOrder(fired) && FiredBefore(fired, events) && Accounted(added, events, fired)
        && NoneLost(events, fired, next) && Followed(fired, added)
    && forall i :: 0 <= i < |fired| ==> fired[i].at <= now
  }

  lemma AddKeeps(events: seq<Event>, fired: seq<Firing>, added: set<Event>, next: nat, now: int, e: Event)
    requires Sound(events, fired, added, next, now) && e.id == next && e.time > now
    ensures Sound(events + [e], fired, added + {e}, next + 1, now)
  {
    hide Accounted, NoneLost, Followed;
    FollowedMore(fired, added, added + {e});
    AccountedMore(added, events, fired, e);
    NoneLostMore(events, fired, next, e);
    forall i, j | 0 <= i < |fired| && 0 <= j < |events + [e]| ensures Before(fired[i].event, (events + [e])[j]) {
      assert fired[i].event.time <= now;
    }
  }

  lemma AddNotDue(events: seq<Event>, e: Event, now: int)
    requires e.time > now
    ensures DueCount(events + [e], now) == DueCount(events, now)
  {
    DueConcat(events, [e], now);
    DueOne(e, now);
  }

  lemma NoneLostMore(events: seq<Event>, fired: seq<Firing>, next: nat, e: Event)
    requires NoneLost(events, fired, next) && e.id == next
    ensures NoneLost(events + [e], fired, next + 1)
  {
    forall id: nat | id < next + 1 ensures PendingId(events + [e], id) || FiredId(fired, id) {
      if id == next {
        assert (events + [e])[|events|].id == id;
      } else if PendingId(events, id) {
        var i :| 0 <= i < |events| && events[i].id == id;
        assert (events + [e])[i].id == id;
      }
    }
  }

  lemma NoneLostMoved(events: seq<Event>, fired: seq<Firing>, next: nat, i: nat, time: int)
    requires NoneLost(events, fired, next) && i < |events|
    ensures NoneLost(events[i := events[i].(time := time)], fired, next)
  {
    var moved := events[i := events[i].(time := time)];
    forall id: nat | id < next && PendingId(events, id) ensures PendingId(moved, id) {
      var j :| 0 <= j < |events| && events[j].id == id;
      assert moved[j].id == id;
    }
  }

  lemma NoneLostFired(events: seq<Event>, fired: seq<Firing>, next: nat, i: nat, now: int)
    requires NoneLost(events, fired, next) && i < |events|
    ensures NoneLost(events[..i] + events[i + 1..], fired + [Firing(events[i], now)], next)
  {
    var rest, after := events[..i] + events[i + 1..], fired + [Firing(events[i], now)];
    RestOf(events, i);
    forall id: nat | id < next ensures PendingId(rest, id) || FiredId(after, id) {
      if PendingId(events, id) {
        var j :| 0 <= j < |events| && events[j].id == id;
        if j == i {
          assert after[|fired|].event.id == id;
        } else {
          assert rest[if j < i then j else j - 1].id == id;
        }
      } else {
        var j :| 0 <= j < |fired| && fired[j].event.id == id;
        assert after[j].event.id == id;
      }
    }
  }

  lemma AccountedMore(added: set<Event>, events: seq<Event>, fired: seq<Firing>, e: Event)
    requires Accounted(added, events, fired)
    ensures Accounted(added + {e}, events + [e], fired)
  {
    assert e in events + [e];
    forall f | f in added + {e} && f.func != Timer ensures f in events + [e] || Firing(f, f.time) in fired {
      if f in added && f in events {
        assert f in events + [e];
      }
    }
  }

  /** A timer's event is moved. */
  lemma RetimeKeeps(events: seq<Event>, fired: seq<Firing>, added: set<Event>, next: nat, now: int, i: nat, time: int)
    requires Sound(events, fired, added, next, now) && i < |events| && events[i].func == Timer && time > now
    ensures Sound(events[i := events[i].(time := time)], fired, added, next, now)
  {
    hide NoneLost, Followed;
    NoneLostMoved(events, fired, next, i, time);
    var moved := events[i := events[i].(time := time)];
    forall e | e in added && e.func != Timer ensures e in moved || Firing(e, e.time) in fired {
      if e in events {
        var j :| 0 <= j < |events| && events[j] == e;
        assert moved[j] == e;
      }
    }
  }

  /** An event that is due fires, when everything pending before it in the list is later. */
  lemma FireKeeps(events: seq<Event>, fired: seq<Firing>, added: set<Event>, next: nat, now: int, i: nat)
    requires Sound(events, fired, added, next, now) && i < |events| && events[i].time == now
    requires forall j :: 0 <= j < i ==> events[j].time > now
    requires Follows(events[i].func, now, added)
    ensures Sound(events[..i] + events[i + 1..], fired + [Firing(events[i], now)], added, next, now)
  {
    hide NoneLost, Accounted, Follows;
    var e := events[i];
    var rest := events[..i] + events[i + 1..];
    RestOf(events, i);
    NoneLostFired(events, fired, next, i, now);
    FiredOne(events, fired, now, i);
    AccountedFired(added, events, fired, i, now);
  }

  /** The list without its i-th event. */
  lemma RestOf(events: seq<Event>, i: nat)
    requires i < |events|
    ensures var rest := events[..i] + events[i + 1..];
      && |rest| == |events| - 1
      && forall j :: 0 <= j < |rest| ==> rest[j] == if j < i then events[j] else events[j + 1]
  {
  }

  lemma FiredOne(events: seq<Event>, fired: seq<Firing>, now: int, i: nat)
    requires InOrder(events) && NoneBefore(events, now) && FiredInOrder(fired) && FiredBefore(fired, events)
    requires i < |events| && events[i].time == now && forall j :: 0 <= j < i ==> events[j].time > now
    ensures FiredInOrder(fired + [Firing(events[i], now)])
    ensures FiredBefore(fired + [Firing(events[i], now)], events[..i] + events[i + 1..])
  {
    RestOf(events, i);
  }

  lemma AccountedFired(added: set<Event>, events: seq<Event>, fired: seq<Firing>, i: nat, now: int)
    requires Accounted(added, events, fired) && i < |events| && events[i].time == now
    ensures Accounted(added, events[..i] + events[i + 1..], fired + [Firing(events[i], now)])
  {
    var rest, after := events[..i] + events[i + 1..], fired + [Firing(events[i], now)];
    RestOf(events, i);
    forall e | e in added && e.func != Timer ensures e in rest || Firing(e, e.time) in after {
      if e in events {
        var j :| 0 <= j < |events| && events[j] == e;
        if j == i {
          assert after[|fired|] == Firing(e, e.time);
        } else {
          assert rest[if j < i then j else j - 1] == e;
        }
      } else {
        assert Firing(e, e.time) in fired;
        assert Firing(e, e.time) in after;
      }
    }
  }

  /** Time goes on, up to the first pending event. */
  lemma TimeKeeps(events: seq<Event>, fired: seq<Firing>, added: set<Event>, next: nat, now: int, later: int)
    requires Sound(events, fired, added, next, now) && now <= later && NoneBefore(events, later)
    ensures Sound(events, fired, added, next, later)
  {
  }

  /** An event fires after its handler added others at the end of the list. */
  lemma FireStep(before: seq<Event>, events: seq<Event>, fired: seq<Firing>, added: set<Event>, next: nat, now: int,
          i: nat, sent: bool, ended: bool, span: Span)
    requires Sound(events, fired, added, next, now) && InFrame(before, fired, sent, ended, now, span)
    requires |before| <= |events| && events[..|before|] == before && NoFrame(events[|before|..])
    requires i < |before| && before[i].time == now && forall j :: 0 <= j < i ==> before[j].time > now
    requires Follows(before[i].func, now, added)
    ensures var rest, after := events[..i] + events[i + 1..], fired + [Firing(before[i], now)];
      && Sound(rest, after, added, next, now)
      && |rest| == |events| - 1 && rest[..i] == before[..i]
      && DueCount(rest, now) + 1 == DueCount(events, now)
      && InFrame(rest, after, sent || before[i].func == VblankStart, ended || before[i].func == VblankEnd, now, span)
  {
    hide Sound, InFrame, DueCount, NoFrame, Follows;
    SamePrefix(before, events, i);
    FireKeeps(events, fired, added, next, now, i);
    DueWithout(events, i, now);
    assert events == before + events[|before|..];
    FrameAdds(before, fired, sent, ended, now, span, events[|before|..]);
    FrameFires(events, fired, sent, ended, now, span, i);
  }

  lemma SamePrefix(before: seq<Event>, events: seq<Event>, i: nat)
    requires |before| <= |events| && events[..|before|] == before && i < |before|
    ensures forall j :: 0 <= j <= i ==> events[j] == before[j]
    ensures (events[..i] + events[i + 1..])[..i] == before[..i]
  {
    forall j | 0 <= j <= i ensures events[j] == before[j] {
      assert events[..|before|][j] == before[j];
    }
  }

  // ----- the frame

  /** A frame: everything that fired before it, and its last cycle. */
  datatype Span = Span(past: seq<Firing>, end: int)

  /** An event that is set for `time`: the only pending one of its kind until it is done, and
      from then on the only one that fired in the frame. */
  ghost predicate Single(events: seq<Event>, fired: seq<Firing>, first: nat, func: Func, done: bool, time: int) {
    && (forall i :: 0 <= i < |events| && events[i].func == func ==> !done && events[i].time == time)
    && (forall i, j :: 0 <= i < j < |events| ==> events[i].func != func || events[j].func != func)
    && (!done ==> exists i :: 0 <= i < |events| && events[i].func == func)
    && (done ==> FiredOnce(fired, first, func, time))
    && (!done ==> forall k :: first <= k < |fired| ==> fired[k].event.func != func)
  }

  /** Since then there was one firing of its kind, at that time. */
  ghost predicate FiredOnce(fired: seq<Firing>, first: nat, func: Func, time: int) {
    exists k :: first <= k < |fired| && fired[k].event.func == func && fired[k].at == time
      && forall j :: first <= j < |fired| && fired[j].event.func == func ==> j == k
  }

  /** The frame ends at the last cycle of its span, and the vertical blank starts 431096 cycles
      before that: both events are pending, or are past. */
  ghost predicate InFrame(events: seq<Event>, fired: seq<Firing>, sent: bool, ended: bool, now: int, span: Span) {
    && now <= span.end && (ended ==> now == span.end) && span.past <= fired
    && Single(events, fired, |span.past|, VblankStart, sent, span.end - 431096)
    && Single(events, fired, |span.past|, VblankEnd, ended, span.end)
  }

  ghost predicate NoFrame(events: seq<Event>) {
    forall i :: 0 <= i < |events| ==> events[i].func != VblankStart && events[i].func != VblankEnd
  }

  lemma SingleAdds(events: seq<Event>, fired: seq<Firing>, first: nat, func: Func, done: bool, time: int,
          more: seq<Event>)
    requires Single(events, fired, first, func, done, time) && forall i :: 0 <= i < |more| ==> more[i].func != func
    ensures Single(events + more, fired, first, func, done, time)
  {
    hide FiredOnce;
    if !done {
      var i :| 0 <= i < |events| && events[i].func == func;
      assert (events + more)[i].func == func;
    }
  }

  lemma SingleFires(events: seq<Event>, fired: seq<Firing>, first: nat, func: Func, done: bool, time: int, i: nat,
          now: int)
    requires Single(events, fired, first, func, done, time) && first <= |fired|
    requires i < |events| && events[i].time == now
    ensures Single(events[..i] + events[i + 1..], fired + [Firing(events[i], now)], first, func,
      done || events[i].func == func, time)
  {
    RestOf(events, i);
    var rest, after := events[..i] + events[i + 1..], fired + [Firing(events[i], now)];
    if done {
      var k :| first <= k < |fired| && fired[k].event.func == func && fired[k].at == time
        && forall j :: first <= j < |fired| && fired[j].event.func == func ==> j == k;
      assert after[k] == fired[k];
    } else if events[i].func == func {
      assert after[|fired|].event.func == func;
    } else {
      var k :| 0 <= k < |events| && events[k].func == func;
      assert rest[if k < i then k else k - 1].func == func;
    }
  }

  lemma SingleRetimed(events: seq<Event>, fired: seq<Firing>, first: nat, func: Func, done: bool, time: int, i: nat,
          later: int)
    requires Single(events, fired, first, func, done, time) && i < |events| && events[i].func == Timer != func
    ensures Single(events[i := events[i].(time := later)], fired, first, func, done, time)
  {
    hide FiredOnce;
    var moved := events[i := events[i].(time := later)];
    if !done {
      var k :| 0 <= k < |events| && events[k].func == func;
      assert moved[k].func == func;
    }
  }

  lemma FrameAdds(events: seq<Event>, fired: seq<Firing>, sent: bool, ended: bool, now: int, span: Span,
          more: seq<Event>)
    requires InFrame(events, fired, sent, ended, now, span) && NoFrame(more)
    ensures InFrame(events + more, fired, sent, ended, now, span)
  {
    hide Single;
    SingleAdds(events, fired, |span.past|, VblankStart, sent, span.end - 431096, more);
    SingleAdds(events, fired, |span.past|, VblankEnd, ended, span.end, more);
  }

  lemma FrameFires(events: seq<Event>, fired: seq<Firing>, sent: bool, ended: bool, now: int, span: Span, i: nat)
    requires InFrame(events, fired, sent, ended, now, span) && i < |events| && events[i].time == now
    ensures InFrame(events[..i] + events[i + 1..], fired + [Firing(events[i], now)],
      sent || events[i].func == VblankStart, ended || events[i].func == VblankEnd, now, span)
  {
    SingleFires(events, fired, |span.past|, VblankStart, sent, span.end - 431096, i, now);
    SingleFires(events, fired, |span.past|, VblankEnd, ended, span.end, i, now);
    assert events[i].func == VblankEnd ==> now == span.end;
    hide Single;
  }

  lemma FrameRetimed(events: seq<Event>, fired: seq<Firing>, sent: bool, ended: bool, now: int, span: Span, i: nat,
          time: int)
    requires InFrame(events, fired, sent, ended, now, span) && i < |events| && events[i].func == Timer
    ensures InFrame(events[i := events[i].(time := time)], fired, sent, ended, now, span)
  {
    hide Single;
    SingleRetimed(events, fired, |span.past|, VblankStart, sent, span.end - 431096, i, time);
    SingleRetimed(events, fired, |span.past|, VblankEnd, ended, span.end, i, time);
  }

  class Emulator {
    // the scheduler
    var eeCount: int
    var busCount: int
    var busRemainder: int
    var iopCount: int
    var iopRemainder: int
    var runCycles: int
    var nextEventId: nat
    var closestEventTime: int
    var events: seq<Event>
    // the emulator
    var frameEnded: bool
    var vblankSent: bool
    // the past: every event added, every event run, every bus and IOP cycle handed out
    ghost var added: set<Event>
    ghost var fired: seq<Firing>
    ghost var busGiven: int
    ghost var iopGiven: int

    /** Between two steps of the loop. */
    ghost predicate Valid()
      reads this
    {
      && Sound(events, fired, added, nextEventId, eeCount)
      && NoneBefore(events, closestEventTime) && closestEventTime <= INT64_MAX
      && Clocks()
    }

    /** The slower clocks are exact fractions of the first, and so are the cycles handed out. */
    ghost predicate Clocks()
      reads `eeCount, `busCount, `busRemainder, `iopCount, `iopRemainder, `busGiven, `iopGiven
    {
      && 0 <= eeCount && 0 <= busRemainder < 2 && 0 <= iopRemainder < 8
      && 2 * busCount + busRemainder == eeCount && 8 * iopCount + iopRemainder == eeCount
      && busGiven == busCount && iopGiven == iopCount
    }

    constructor ()
      ensures Valid() && eeCount == 0 && events == [] && fired == [] && added == {}
    {
      eeCount, busCount, iopCount := 0, 0, 0;
      busRemainder, iopRemainder, runCycles := 0, 0, 0;
      nextEventId, closestEventTime, events := 0, INT64_MAX, [];
      frameEnded, vblankSent := false, false;
      added, fired, busGiven, iopGiven := {}, [], 0, 0;
    }

    // ----- adding and moving events

    /** add_event; the time is computed in a signed 64-bit register. */
    method AddEvent(func: Func, delta: int)
      modifies `nextEventId, `closestEventTime, `events, `added
      ensures nextEventId == old(nextEventId) + 1
      ensures events == old(events) + [Event(old(nextEventId), Wrap64(eeCount + delta), func)]
      ensures closestEventTime == Min(Wrap64(eeCount + delta), old(closestEventTime))
      ensures added == old(added) + {Event(old(nextEventId), Wrap64(eeCount + delta), func)}
    {
      var event := Event(nextEventId, Wrap64(eeCount + delta), func);
      nextEventId := nextEventId + 1;
      closestEventTime := Min(event.time, closestEventTime);
      events := events + [event];
      added := added + {event};
    }

    /** An event in the future, as handlers and components add them. */
    method AddSoon(func: Func, delta: int)
      requires Sound(events, fired, added, nextEventId, eeCount)
      requires 0 <= eeCount < HORIZON && 0 < delta < HORIZON
      modifies `nextEventId, `closestEventTime, `events, `added
      ensures Sound(events, fired, added, nextEventId, eeCount)
      ensures events == old(events) + [Event(old(nextEventId), eeCount + delta, func)]
      ensures closestEventTime == Min(eeCount + delta, old(closestEventTime))
      ensures Scheduled(added, func, eeCount + delta) && old(added) <= added
      ensures DueCount(events, eeCount) == DueCount(old(events), eeCount)
    {
      hide Sound, DueCount;
      AddKeeps(events, fired, added, nextEventId, eeCount, Event(nextEventId, eeCount + delta, func));
      AddNotDue(events, Event(nextEventId, eeCount + delta, func), eeCount);
      AddEvent(func, delta);
    }

    /** restart_timer: the new event is added at the end of time, which wraps around, and moved
        to its deadline at once. The cached bound keeps the wrapped time. */
    method RestartTimer(delta: int)
      requires Sound(events, fired, added, nextEventId, eeCount)
      requires 0 <= eeCount < HORIZON && 0 < delta < HORIZON
      modifies `nextEventId, `closestEventTime, `events, `added
      ensures Sound(events, fired, added, nextEventId, eeCount)
      ensures events == old(events) + [Event(old(nextEventId), eeCount + delta, Timer)]
      ensures closestEventTime == Min(eeCount + delta, Min(Wrap64(eeCount + INT64_MAX), old(closestEventTime)))
      ensures DueCount(events, eeCount) == DueCount(old(events), eeCount)
    {
      hide Sound, DueCount;
      ghost var moved := Event(nextEventId, eeCount + delta, Timer);
      AddKeeps(events, fired, added, nextEventId, eeCount, moved);
      AddNotDue(events, moved, eeCount);
      AddEvent(Timer, INT64_MAX);
      var last := |events| - 1;
      var time := eeCount + delta;
      events := events[last := events[last].(time := time)];
      assert events == old(events) + [moved];
      closestEventTime := Min(time, closestEventTime);
      added := old(added) + {moved};
    }

    /** The end of Emulator::reset: the first HBLANK and the first sound sample. */
    method ScheduleFirst()
      requires Valid() && events == [] && eeCount == 0
      modifies `nextEventId, `closestEventTime, `events, `added
      ensures Valid() && NoFrame(events)
      ensures Scheduled(added, Hblank, 18742) && Scheduled(added, Spu, 6144)
    {
      hide Sound, Follows;
      AddSoon(Hblank, HBLANK_CYCLES);
      ghost var e :| e in added && e.func == Hblank && e.time == 18742;
      AddSoon(Spu, SPU_CYCLES);
      assert e in added;
    }

    // ----- handlers

    /** Some events are added, none of them of those that make a frame. */
    ghost predicate Grown(before: seq<Event>)
      reads this
    {
      && Sound(events, fired, added, nextEventId, eeCount)
      && |before| <= |events| && events[..|before|] == before && NoFrame(events[|before|..])
      && DueCount(events, eeCount) == DueCount(before, eeCount)
    }

    /** Any number of events, each some cycles ahead. */
    method AddSome()
      requires Sound(events, fired, added, nextEventId, eeCount) && 0 <= eeCount < HORIZON
      modifies `nextEventId, `closestEventTime, `events, `added
      ensures Grown(old(events)) && closestEventTime <= old(closestEventTime)
      ensures closestEventTime >= Min(old(closestEventTime), eeCount + 1)
    {
      hide Sound, DueCount;
      var n: nat := *;
      while n > 0
        invariant Grown(old(events))
        invariant Min(old(closestEventTime), eeCount + 1) <= closestEventTime <= old(closestEventTime)
      {
        var delta: int :| 0 < delta < HORIZON;
        AddSoon(Other, delta);
        n := n - 1;
      }
    }

    /** The registered functions. A timer's function may add events from its callbacks and
        restarts the timer. */
    method RunHandler(func: Func)
      requires Sound(events, fired, added, nextEventId, eeCount) && 0 <= eeCount < HORIZON
      modifies `nextEventId, `closestEventTime, `events, `added, `frameEnded, `vblankSent
      ensures Grown(old(events)) && closestEventTime <= old(closestEventTime)
      ensures frameEnded == (old(frameEnded) || func == VblankEnd)
      ensures vblankSent == (old(vblankSent) || func == VblankStart)
      ensures Follows(func, eeCount, added)
    {
      hide Sound, DueCount;
      match func {
        case VblankStart =>
          vblankSent := true;
          AddSoon(GsVblank, GS_VBLANK_DELAY);
        case VblankEnd => frameEnded := true;
        case Hblank => AddSoon(Hblank, HBLANK_CYCLES);
        case Spu => AddSoon(Spu, SPU_CYCLES);
        case GsVblank =>
        case Timer =>
          AddSome();
          var delta: int :| 8 <= delta < HORIZON;
          RestartTimer(delta);
        case Other => AddSome();
      }
    }

    // ----- one pass over the list

    /** The pass has looked at the first i events. */
    ghost predicate InPass(i: nat, newTime: int)
      reads this
    {
      && Sound(events, fired, added, nextEventId, eeCount) && Clocks() && eeCount < HORIZON
      && i <= |events| && NoneBefore(events[..i], newTime) && closestEventTime <= eeCount <= newTime <= FAR_FUTURE
      && (closestEventTime == eeCount ==> eeCount < newTime)
    }

    /** What is due when the pass is at it. */
    lemma DueNow(i: nat, newTime: int)
      requires InPass(i, newTime) && i < |events| && events[i].time <= closestEventTime
      ensures events[i].time == eeCount == closestEventTime
      ensures forall j :: 0 <= j < i ==> events[j].time > eeCount
    {
      forall j | 0 <= j < i ensures events[j].time > eeCount {
        assert events[..i][j] == events[j];
      }
    }

    /** An event that is due runs and leaves the list. */
    method Fire(i: nat, newTime: int, ghost span: Span)
      requires InPass(i, newTime) && i < |events| && events[i].time <= closestEventTime
      requires InFrame(events, fired, vblankSent, frameEnded, eeCount, span)
      modifies `nextEventId, `closestEventTime, `events, `added, `fired, `frameEnded, `vblankSent
      ensures InPass(i, newTime) && closestEventTime <= old(closestEventTime)
      ensures InFrame(events, fired, vblankSent, frameEnded, eeCount, span)
      ensures DueCount(events, eeCount) + 1 == DueCount(old(events), eeCount)
    {
      hide Sound, InFrame, DueCount, NoFrame, NoneBefore, Follows;
      var event := events[i];
      ghost var before := events;
      DueNow(i, newTime);
      RunHandler(event.func);
      FireStep(before, events, fired, added, nextEventId, eeCount, i, old(vblankSent), old(frameEnded), span);
      events := events[..i] + events[i + 1..];
      fired := fired + [Firing(event, eeCount)];
    }

    /** The event is left for later. */
    lemma Skipped(i: nat, newTime: int)
      requires InPass(i, newTime) && i < |events| && events[i].time > closestEventTime
      ensures InPass(i + 1, Min(events[i].time, newTime))
    {
      assert events[..i + 1] == events[..i] + [events[i]];
      assert events[i].time >= eeCount;
    }

    function Lag(): nat
      reads this
    {
      if closestEventTime < eeCount then 2 else if closestEventTime == eeCount then 1 else 0
    }

    /** process_events. A pass fires what is due, or raises a bound that was too low. */
    method ProcessEvents(ghost span: Span)
      requires Valid() && eeCount < HORIZON && InFrame(events, fired, vblankSent, frameEnded, eeCount, span)
      modifies `nextEventId, `closestEventTime, `events, `added, `fired, `frameEnded, `vblankSent
      ensures Valid() && InFrame(events, fired, vblankSent, frameEnded, eeCount, span)
      ensures if old(closestEventTime) <= eeCount then
          DueCount(events, eeCount) < DueCount(old(events), eeCount)
          || (DueCount(events, eeCount) == DueCount(old(events), eeCount) && Lag() < old(Lag()))
        else events == old(events) && closestEventTime == old(closestEventTime)
    {
      hide Sound, InFrame, DueCount, NoFrame, NoneBefore;
      if eeCount >= closestEventTime {
        var newTime := FAR_FUTURE;
        var i := 0;
        PassBegins(newTime);
        while i < |events|
          invariant InPass(i, newTime) && InFrame(events, fired, vblankSent, frameEnded, eeCount, span)
          invariant closestEventTime <= old(closestEventTime)
          invariant DueCount(events, eeCount) <= DueCount(old(events), eeCount)
          invariant DueCount(events, eeCount) == DueCount(old(events), eeCount) ==>
              closestEventTime == old(closestEventTime)
          decreases DueCount(events, eeCount), |events| - i
        {
          if events[i].time <= closestEventTime {
            Fire(i, newTime, span);
          } else {
            Skipped(i, newTime);
            newTime := Min(events[i].time, newTime);
            i := i + 1;
          }
        }
        PassEnds(newTime);
        closestEventTime := newTime;
      }
    }

    lemma PassBegins(newTime: int)
      requires Valid() && eeCount < HORIZON && newTime == FAR_FUTURE && closestEventTime <= eeCount
      ensures InPass(0, newTime)
    {
      hide Sound;
    }

    lemma PassEnds(newTime: int)
      requires InPass(|events|, newTime)
      ensures NoneBefore(events, newTime)
    {
      assert events[..|events|] == events;
    }

    // ----- the loop

    /** calculate_run_cycles: as far as the cached bound, and no more than 32 cycles. */
    method CalculateRunCycles() returns (died: bool)
      requires Valid()
      modifies `runCycles
      ensures died <==> events == []
      ensures !died ==> 0 <= runCycles <= MAX_CYCLES && NoneBefore(events, eeCount + runCycles)
      ensures !died ==> (runCycles == 0 <==> closestEventTime <= eeCount)
      ensures !died ==> runCycles == 32 || eeCount + runCycles >= closestEventTime
    {
      died := events == [];
      if died {
        return;
      }
      if eeCount + MAX_CYCLES <= closestEventTime {
        runCycles := MAX_CYCLES;
      } else {
        var delta := closestEventTime - eeCount;
        runCycles := if delta > 0 then delta else 0;
      }
    }

    method GetBusRunCycles() returns (cycles: int)
      requires Clocks() && runCycles >= 0
      ensures 2 * (busCount + cycles) <= eeCount + runCycles < 2 * (busCount + cycles) + 2
    {
      cycles := runCycles / 2;
      if busRemainder != 0 && runCycles % 2 == 1 {
        cycles := cycles + 1;
      }
    }

    method GetIopRunCycles() returns (cycles: int)
      requires Clocks() && runCycles >= 0
      ensures 8 * (iopCount + cycles) <= eeCount + runCycles < 8 * (iopCount + cycles) + 8
    {
      cycles := runCycles / 8;
      if iopRemainder + runCycles % 8 >= 8 {
        cycles := cycles + 1;
      }
    }

    /** update_cycle_counts, after the two methods above said what the slower clocks get. */
    method UpdateCycleCounts(ghost bus: int, ghost iop: int)
      requires Clocks() && runCycles >= 0
      requires 2 * (busCount + bus) <= eeCount + runCycles < 2 * (busCount + bus) + 2
      requires 8 * (iopCount + iop) <= eeCount + runCycles < 8 * (iopCount + iop) + 8
      modifies `eeCount, `busCount, `busRemainder, `iopCount, `iopRemainder, `busGiven, `iopGiven
      ensures Clocks() && eeCount == old(eeCount) + runCycles
    {
      eeCount := eeCount + runCycles;
      busCount := busCount + runCycles / 2;
      iopCount := iopCount + runCycles / 8;
      busRemainder := busRemainder + runCycles % 2;
      if busRemainder > 1 {
        busCount := busCount + 1;
        busRemainder := 0;
      }
      iopRemainder := iopRemainder + runCycles % 8;
      if iopRemainder >= 8 {
        iopCount := iopCount + 1;
        iopRemainder := iopRemainder - 8;
      }
      busGiven, iopGiven := busGiven + bus, iopGiven + iop;
    }

    /** The cycles of one turn: every clock goes on, no event is passed over. */
    method Tick() returns (bus: int, iop: int, died: bool)
      requires Valid() && eeCount < HORIZON
      modifies `runCycles, `eeCount, `busCount, `busRemainder, `iopCount, `iopRemainder, `busGiven, `iopGiven
      ensures died <==> events == []
      ensures !died ==> Valid() && NoneBefore(events, eeCount) && eeCount >= old(eeCount)
      ensures !died ==> (eeCount == old(eeCount) <==> closestEventTime <= old(eeCount))
    {
      hide Sound, NoneBefore;
      bus, iop := 0, 0;
      died := CalculateRunCycles();
      if died {
        return;
      }
      bus := GetBusRunCycles();
      iop := GetIopRunCycles();
      TimeKeeps(events, fired, added, nextEventId, eeCount, eeCount + runCycles);
      UpdateCycleCounts(bus, iop);
    }

    /** The components: they may add events, move timers' events, or put them off for good. */
    method Components(ghost span: Span)
      requires Valid() && eeCount < HORIZON && InFrame(events, fired, vblankSent, frameEnded, eeCount, span)
      modifies `nextEventId, `closestEventTime, `events, `added
      ensures Valid() && InFrame(events, fired, vblankSent, frameEnded, eeCount, span)
      ensures Lag() == old(Lag()) && DueCount(events, eeCount) <= DueCount(old(events), eeCount)
    {
      hide Sound, InFrame, DueCount, NoFrame, NoneBefore;
      var n: nat := *;
      while n > 0
        invariant Valid() && InFrame(events, fired, vblankSent, frameEnded, eeCount, span)
        invariant Lag() == old(Lag()) && DueCount(events, eeCount) <= DueCount(old(events), eeCount)
      {
        var adding: bool := *;
        if adding {
          Add(span);
        } else {
          Retime(span);
        }
        n := n - 1;
      }
    }

    method Add(ghost span: Span)
      requires Valid() && eeCount < HORIZON && InFrame(events, fired, vblankSent, frameEnded, eeCount, span)
      modifies `nextEventId, `closestEventTime, `events, `added
      ensures Valid() && InFrame(events, fired, vblankSent, frameEnded, eeCount, span)
      ensures Lag() == old(Lag()) && DueCount(events, eeCount) == DueCount(old(events), eeCount)
    {
      hide Sound, InFrame, DueCount;
      var delta: int :| 0 < delta < HORIZON;
      FrameAdds(events, fired, vblankSent, frameEnded, eeCount, span, [Event(nextEventId, eeCount + delta, Other)]);
      AddSoon(Other, delta);
    }

    /** update_timer_event_time, or the end of time for a paused timer. */
    method Retime(ghost span: Span)
      requires Valid() && eeCount < HORIZON && InFrame(events, fired, vblankSent, frameEnded, eeCount, span)
      modifies `closestEventTime, `events
      ensures Valid() && InFrame(events, fired, vblankSent, frameEnded, eeCount, span)
      ensures Lag() == old(Lag()) && DueCount(events, eeCount) <= DueCount(old(events), eeCount)
    {
      hide Sound, InFrame, DueCount;
      var i: int := *;
      if 0 <= i < |events| && events[i].func == Timer {
        var pausing: bool := *;
        var delta: int :| 8 <= delta < HORIZON;
        var time := if pausing then INT64_MAX else eeCount + delta;
        RetimeKeeps(events, fired, added, nextEventId, eeCount, i, time);
        FrameRetimed(events, fired, vblankSent, frameEnded, eeCount, span, i, time);
        LessDue(events, i, eeCount, time);
        events := events[i := events[i].(time := time)];
        if !pausing {
          closestEventTime := Min(time, closestEventTime);
        }
      }
    }

    /** Emulator::run, from the start of a frame to its end. */
    method Run()
      requires Valid() && NoFrame(events) && eeCount + CYCLES_PER_FRAME < HORIZON
      modifies this
      ensures Valid() && NoFrame(events) && frameEnded && vblankSent
      ensures eeCount == old(eeCount) + 4920115
      ensures busGiven - old(busGiven) == eeCount / 2 - old(eeCount) / 2
      ensures iopGiven - old(iopGiven) == eeCount / 8 - old(eeCount) / 8
      ensures old(fired) <= fired
      ensures FiredOnce(fired, |old(fired)|, VblankStart, old(eeCount) + 4489019)
      ensures FiredOnce(fired, |old(fired)|, VblankEnd, old(eeCount) + 4920115)
    {
      hide Sound, InFrame, DueCount, NoFrame, NoneBefore, Clocks, Lag, FiredOnce;
      ghost var span := Span(fired, eeCount + CYCLES_PER_FRAME);
      ClockFractions();
      vblankSent := false;
      frameEnded := false;
      StartFrame(span);
      while !frameEnded
        invariant Valid() && InFrame(events, fired, vblankSent, frameEnded, eeCount, span)
        invariant eeCount <= span.end
        decreases span.end - eeCount, DueCount(events, eeCount), Lag()
      {
        FramePending(span);
        Turn(span);
      }
      FrameOver(span);
      ClockFractions();
    }

    lemma ClockFractions()
      requires Clocks()
      ensures busGiven == eeCount / 2 && iopGiven == eeCount / 8 && eeCount >= 0
    {
    }

    /** One turn of the loop. If no cycles passed, fewer events are due or the bound is better. */
    method Turn(ghost span: Span)
      requires Valid() && !frameEnded && InFrame(events, fired, vblankSent, frameEnded, eeCount, span)
      requires span.end < HORIZON && events != []
      modifies this
      ensures Valid() && InFrame(events, fired, vblankSent, frameEnded, eeCount, span)
      ensures old(eeCount) <= eeCount <= span.end
      ensures eeCount == old(eeCount) ==>
        DueCount(events, eeCount) < DueCount(old(events), eeCount)
        || (DueCount(events, eeCount) == DueCount(old(events), eeCount) && Lag() < old(Lag()))
    {
      hide Sound, DueCount, InFrame, NoFrame, NoneBefore, Clocks;
      NotOver(span);
      var bus, iop, died := Tick();
      EndNotPassed(old(eeCount), span);
      NotOver(span);
      Components(span);
      ProcessEvents(span);
      NotOver(span);
    }

    method StartFrame(ghost span: Span)
      requires Valid() && NoFrame(events) && !frameEnded && !vblankSent
      requires span == Span(fired, eeCount + 4920115) && span.end < HORIZON
      modifies `nextEventId, `closestEventTime, `events, `added
      ensures Valid() && InFrame(events, fired, vblankSent, frameEnded, eeCount, span)
    {
      hide Sound;
      AddSoon(VblankStart, VBLANK_START_CYCLES);
      AddSoon(VblankEnd, CYCLES_PER_FRAME);
      assert events[|events| - 2].func == VblankStart && events[|events| - 1].func == VblankEnd;
    }

    lemma FramePending(span: Span)
      requires InFrame(events, fired, vblankSent, frameEnded, eeCount, span) && !frameEnded
      ensures events != []
    {
    }

    lemma NotOver(span: Span)
      requires InFrame(events, fired, vblankSent, frameEnded, eeCount, span)
      ensures eeCount <= span.end
    {
    }

    lemma EndNotPassed(before: int, span: Span)
      requires NoneBefore(events, eeCount) && !frameEnded
      requires InFrame(events, fired, vblankSent, frameEnded, before, span)
      ensures InFrame(events, fired, vblankSent, frameEnded, eeCount, span)
    {
      hide FiredOnce;
    }

    lemma FrameOver(span: Span)
      requires Valid() && InFrame(events, fired, vblankSent, frameEnded, eeCount, span) && frameEnded
      ensures eeCount == span.end && NoFrame(events) && vblankSent && span.past <= fired
      ensures FiredOnce(fired, |span.past|, VblankStart, span.end - 431096)
      ensures FiredOnce(fired, |span.past|, VblankEnd, span.end)
    {
      hide FiredOnce, FiredInOrder, FiredBefore, Accounted, NoneLost, Followed;
    }

    /** Every event but a timer's fires at exactly its time. */
    lemma FiresOnTime(e: Event)
      requires Valid() && e in added && e.func != Timer && e.time < eeCount
      ensures Firing(e, e.time) in fired
    {
    }

    /** Every handler has scheduled what follows it: the next HBLANK, the next sound sample, and
        the GS's vertical blank after the start of one. */
    lemma HandlersFollow(f: Firing)
      requires Valid() && f in fired
      ensures f.event.func == Hblank ==> Scheduled(added, Hblank, f.at + 18742)
      ensures f.event.func == Spu ==> Scheduled(added, Spu, f.at + 6144)
      ensures f.event.func == VblankStart ==> Scheduled(added, GsVblank, f.at + 65622)
    {
      var i :| 0 <= i < |fired| && fired[i] == f;
      assert Follows(fired[i].event.func, fired[i].at, added);
    }

    /** Once HBLANK was scheduled for some cycle, it has fired at that one and every 18742
        cycles after it, as long as the emulator ran. */
    lemma {:induction false} HblankTrain(start: int, k: nat)
      requires Valid() && Scheduled(added, Hblank, start) && start + 18742 * k < eeCount
      ensures exists f :: f in fired && f.event.func == Hblank && f.at == start + 18742 * k
    {
      hide Sound;
      if k > 0 {
        HblankTrain(start, k - 1);
        var f :| f in fired && f.event.func == Hblank && f.at == start + 18742 * (k - 1);
        HandlersFollow(f);
      }
      var e :| e in added && e.func == Hblank && e.time == start + 18742 * k;
      FiresOnTime(e);
      assert Firing(e, e.time) in fired;
    }

    /** So does the sound sample, every 6144 cycles. */
    lemma {:induction false} SampleTrain(start: int, k: nat)
      requires Valid() && Scheduled(added, Spu, start) && start + 6144 * k < eeCount
      ensures exists f :: f in fired && f.event.func == Spu && f.at == start + 6144 * k
    {
      hide Sound;
      if k > 0 {
        SampleTrain(start, k - 1);
        var f :| f in fired && f.event.func == Spu && f.at == start + 6144 * (k - 1);
        HandlersFollow(f);
      }
      var e :| e in added && e.func == Spu && e.time == start + 6144 * k;
      FiresOnTime(e);
      assert Firing(e, e.time) in fired;
    }

    /** A timer's event too: once its time has passed it is no longer pending for that time, and
        its id is among those fired, each at the time it had then, or it was moved to a later
        time. */
    lemma TimersFire(e: Event)
      requires Valid() && e.id < nextEventId && e.time < eeCount
      ensures e !in events
      ensures FiredId(fired, e.id) || exists i :: 0 <= i < |events| && events[i].id == e.id && events[i].time >= eeCount
    {
      if PendingId(events, e.id) {
        var i :| 0 <= i < |events| && events[i].id == e.id;
        assert events[i].time >= eeCount;
      }
    }

    /** No event fires twice or off its time, and events of one instant fire in the order in
        which they were added. */
    lemma FiresInOrder(i: nat, j: nat)
      requires Valid() && i < j < |fired|
      ensures fired[i].at == fired[i].event.time && fired[j].at == fired[j].event.time
      ensures fired[i].at < fired[j].at || (fired[i].at == fired[j].at && fired[i].event.id < fired[j].event.id)
    {
      assert Before(fired[i].event, fired[j].event);
    }
  }

  lemma LessDue(events: seq<Event>, i: nat, now: int, time: int)
    requires i < |events| && time > now
    ensures DueCount(events[i := events[i].(time := time)], now) <= DueCount(events, now)
  {
    var moved := events[i := events[i].(time := time)];
    DueWithout(events, i, now);
    DueWithout(moved, i, now);
    assert events[..i] + events[i + 1..] == moved[..i] + moved[i + 1..];
  }
}