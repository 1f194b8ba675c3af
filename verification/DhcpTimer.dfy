/**
 * The lease timer of the DHCP client: the deduction part of checkLease.
 *
 * The clock is millis(), a 32-bit counter that wraps; the timer keeps the next full second as another 32-bit
 * number and compares the two by signed difference.
 */
module DhcpTimer {
  import opened Division

  const WORD: nat := 0x1_0000_0000
  const HALF: nat := 0x8000_0000

  function Wrap(x: int): (u: nat)
    ensures u < WORD
  {
    x % WORD
  }

  function Signed(u: int): int { if u % WORD < HALF then u % WORD else u % WORD - WORD }

  /** The timer's fields; `started` says that _lastCheck is not zero. */
  datatype Timer = Timer(started: bool, secTimeout: nat, renewInSec: int, rebindInSec: int)

  /** A counter after `secs` seconds: within two such steps of running out it is cleared early. */
  function Deducted(counter: int, secs: int): int {
    if counter < secs * 2 then 0 else counter - secs
  }

  /** Milliseconds past the timeout, and the seconds that makes. */
  function Late(t: Timer, now: nat): int { Signed(Signed(now) - Signed(t.secTimeout)) }

  function Seconds(t: Timer, now: nat): nat {
    if t.started && 0 <= Late(t, now) then Late(t, now) / 1000 + 1 else 0
  }

  /** What one call does to the timer when nothing is granted. */
  function Tick(t: Timer, now: nat): Timer {
    if !t.started then
      t.(started := now != 0, secTimeout := Wrap(Signed(now) + 1000))
    else if Late(t, now) < 0 then
      t.(started := now != 0)
    else
      Timer(now != 0,
            Wrap(Signed(now) + 1000 - Late(t, now) % 1000),
            Deducted(t.renewInSec, Seconds(t, now)),
            Deducted(t.rebindInSec, Seconds(t, now)))
  }

  /** Seconds of the fixed grid that starts at `first` that have begun by `time`. */
  function GridSeconds(first: nat, time: nat): nat {
    if time < first then 0 else (time - first) / 1000 + 1
  }

  /** The timer after calls at the given unbounded times, in milliseconds. */
  function After(t: Timer, times: seq<nat>): Timer
    decreases |times|
  {
    if times == [] then t else After(Tick(t, Wrap(times[0])), times[1..])
  }

  function Last(time: nat, times: seq<nat>): nat
    decreases |times|
  {
    if times == [] then time else Last(times[0], times[1..])
  }

  /**
   * Calls after `time`, in order, never half a wrap apart, none when the 32-bit clock reads zero, and no step
   * over more than `longest` seconds of the grid.
   */
  predicate Timely(time: nat, times: seq<nat>, first: nat, longest: nat)
    decreases |times|
  {
    times == []
    || (&& time <= times[0] < time + HALF && Wrap(times[0]) != 0
        && GridSeconds(first, times[0]) <= GridSeconds(first, time) + longest
        && Timely(times[0], times[1..], first, longest))
  }

  /** The timeout stands on the grid, `gone` seconds after its first second. */
  predicate OnGrid(t: Timer, first: nat, gone: nat) {
    t.started && t.secTimeout == Wrap(first + 1000 * gone)
  }

  lemma GridIsNext(first: nat, time: nat)
    requires first <= time + 1000
    ensures time < first + 1000 * GridSeconds(first, time) <= time + 1000
  {
  }

  /** Below half a wrap, the signed difference of two wrapped times is their true difference. */
  lemma SignedDifference(a: int, b: int)
    requires 0 <= a - b + HALF < WORD
    ensures Signed(Signed(a) - Signed(b)) == a - b
  {
  }

  lemma WrapOfSigned(x: int, y: int)
    ensures Wrap(Signed(x) + y) == Wrap(x + y) == Wrap(Wrap(x) + y)
    ensures Signed(Wrap(x)) == Signed(x)
  {
  }

  /** One call on a timer that stands on the grid deducts exactly the grid seconds that have begun since. */
  lemma TickStaysOnGrid(t: Timer, first: nat, time: nat, next: nat)
    requires OnGrid(t, first, GridSeconds(first, time)) && first <= time + 1000
    requires time <= next < time + HALF && Wrap(next) != 0
    ensures OnGrid(Tick(t, Wrap(next)), first, GridSeconds(first, next))
    ensures GridSeconds(first, next) == GridSeconds(first, time) + Seconds(t, Wrap(next))
  {
    var due := first + 1000 * GridSeconds(first, time);
    GridIsNext(first, time);
    var late := next - due;
    SignedDifference(next, due);
    WrapOfSigned(next, 0);
    WrapOfSigned(due, 0);
    assert Late(t, Wrap(next)) == late;
    if 0 <= late {
      LaterSeconds(first, time, next);
      WrapOfSigned(next, 1000 - late % 1000);
      QuotientAndRest(late, 1000);
      assert next + (1000 - late % 1000) == first + 1000 * GridSeconds(first, next);
    } else {
      SameSecond(first, time, next);
    }
  }

  lemma LaterSeconds(first: nat, time: nat, next: nat)
    requires first + 1000 * GridSeconds(first, time) <= next && time <= next
    ensures GridSeconds(first, next) ==
            GridSeconds(first, time) + (next - first - 1000 * GridSeconds(first, time)) / 1000 + 1
  {
  }

  lemma SameSecond(first: nat, time: nat, next: nat)
    requires time <= next < first + 1000 * GridSeconds(first, time)
    ensures GridSeconds(first, next) == GridSeconds(first, time)
  {
  }

  /** How a counter relates to its start after `gone` seconds, when no call deducted more than `longest`. */
  predicate Follows(start: int, counter: int, gone: nat, longest: nat) {
    && (counter == start - gone || counter == 0)
    && (longest <= start - gone ==> counter == start - gone)
    && (0 <= start ==> 0 <= counter)
  }

  lemma DeductedFollows(start: int, counter: int, gone: nat, longest: nat, secs: nat)
    requires Follows(start, counter, gone, longest) && secs <= longest
    ensures Follows(start, if secs == 0 then counter else Deducted(counter, secs), gone + secs, longest)
  {
  }

  /** The timer stands on the grid, and both counters follow it. */
  predicate Tracks(start: Timer, t: Timer, first: nat, gone: nat, longest: nat) {
    && OnGrid(t, first, gone)
    && Follows(start.renewInSec, t.renewInSec, gone, longest)
    && Follows(start.rebindInSec, t.rebindInSec, gone, longest)
  }

  lemma TickTracks(start: Timer, t: Timer, first: nat, time: nat, next: nat, longest: nat)
    requires Tracks(start, t, first, GridSeconds(first, time), longest) && first <= time + 1000
    requires time <= next < time + HALF && Wrap(next) != 0
    requires GridSeconds(first, next) <= GridSeconds(first, time) + longest
    ensures Tracks(start, Tick(t, Wrap(next)), first, GridSeconds(first, next), longest)
  {
    TickStaysOnGrid(t, first, time, next);
    var gone, secs := GridSeconds(first, time), Seconds(t, Wrap(next));
    DeductedFollows(start.renewInSec, t.renewInSec, gone, longest, secs);
    DeductedFollows(start.rebindInSec, t.rebindInSec, gone, longest, secs);
  }

  lemma FirstTickTracks(t: Timer, time: nat, longest: nat)
    requires !t.started && Wrap(time) != 0
    ensures Tracks(t, Tick(t, Wrap(time)), time + 1000, 0, longest)
  {
    WrapOfSigned(time, 1000);
    WrapOfSigned(Wrap(time), 1000);
  }

  lemma {:induction false} TracksOn(start: Timer, t: Timer, first: nat, time: nat, times: seq<nat>, longest: nat)
    requires Tracks(start, t, first, GridSeconds(first, time), longest) && first <= time + 1000
    requires Timely(time, times, first, longest)
    ensures Tracks(start, After(t, times), first, GridSeconds(first, Last(time, times)), longest)
    decreases |times|
  {
    if times != [] {
      TickTracks(start, t, first, time, times[0], longest);
      TracksOn(start, Tick(t, Wrap(times[0])), first, times[0], times[1..], longest);
    }
  }

  /**
   * No drift: however irregular the calls, across any number of wraps of the clock, the timeout stays on the
   * one grid fixed by the first call, and a counter is its start less the grid seconds that have begun. It can
   * be cleared early only within one longest deduction of its end, and never becomes negative.
   */
  lemma NoDrift(t: Timer, time: nat, times: seq<nat>, longest: nat)
    requires !t.started && Wrap(time) != 0 && Timely(time, times, time + 1000, longest)
    ensures Tracks(t, After(t, [time] + times), time + 1000, GridSeconds(time + 1000, Last(time, times)), longest)
  {
    FirstTickTracks(t, time, longest);
    TracksOn(t, Tick(t, Wrap(time)), time + 1000, time, times, longest);
    assert ([time] + times)[1..] == times;
  }

  /**
   * A call keeps the grid exactly if the clock does not read zero then. A zero reading is taken for "never called":
   * the next call deducts nothing and starts a new grid one second after itself, so the time between is lost.
   */
  lemma ZeroClockRestartsGrid(t: Timer, first: nat, time: nat, next: nat, later: nat)
    requires OnGrid(t, first, GridSeconds(first, time)) && first <= time + 1000
    requires time <= next < time + HALF && Wrap(later) != 0
    ensures OnGrid(Tick(t, Wrap(next)), first, GridSeconds(first, next)) <==> Wrap(next) != 0
    ensures Wrap(next) == 0 ==>
              var u := Tick(t, Wrap(next));
              var v := Tick(u, Wrap(later));
              && v.renewInSec == u.renewInSec && v.rebindInSec == u.rebindInSec && OnGrid(v, later + 1000, 0)
  {
    if Wrap(next) != 0 {
      TickStaysOnGrid(t, first, time, next);
    } else {
      WrapOfSigned(later, 1000);
      WrapOfSigned(Wrap(later), 1000);
    }
  }
}
