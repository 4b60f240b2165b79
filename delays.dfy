/** The busy-wait delays, run against an abstract clock: `clock` is the list
    of values successive calls of `micros` return, in the order they are
    made. The spin of the source ends only when the clock gets far enough;
    here it also ends when the supplied readings run out, and then the delay
    reports that it has not returned yet. */
module Delays {
  import opened Words

  /** The clock never runs backwards. This is a hypothesis about the supplied
      readings: the timebase proves it of single conversions whose countdown
      is within the tick period (`Timebase.MicrosMonotone`), not of a whole
      sequence of `micros` calls. */
  ghost predicate NonDecreasing(clock: seq<nat>) {
    forall i, j :: 0 <= i <= j < |clock| ==> clock[i] <= clock[j]
  }

  /** Searching from reading `i` on, the index just past the first reading
      that is at least `deadline`, if there is one. */
  function ReachFrom(clock: seq<nat>, deadline: nat, i: nat): (r: Option<nat>)
    requires i <= |clock|
    ensures r.Some? ==>
              i < r.value <= |clock| && clock[r.value - 1] >= deadline &&
              forall k :: i <= k < r.value - 1 ==> clock[k] < deadline
    ensures r.None? ==> forall k :: i <= k < |clock| ==> clock[k] < deadline
    decreases |clock| - i
  {
    if i == |clock| then None
    else if clock[i] >= deadline then Some(i + 1)
    else ReachFrom(clock, deadline, i + 1)
  }

  /** Where one `delayMicroseconds(us)` that starts at reading `start` ends:
      it takes `clock[start]` as the start, then reads on until a reading
      reaches `clock[start] + us`; the result is the index just past that
      reading. `None` when no later reading reaches it. */
  function WaitEnd(clock: seq<nat>, start: nat, us: nat): (r: Option<nat>)
    ensures r.Some? ==>
              start + 2 <= r.value <= |clock| && clock[r.value - 1] >= clock[start] + us
  {
    if start >= |clock| then None else ReachFrom(clock, clock[start] + us, start + 1)
  }

  /** The wait ends exactly when some reading after the start reaches the
      deadline, and then at the first such reading. */
  lemma WaitEndIsFirst(clock: seq<nat>, start: nat, us: nat)
    ensures WaitEnd(clock, start, us).Some? <==>
              start < |clock| && exists k :: start < k < |clock| && clock[k] >= clock[start] + us
    ensures WaitEnd(clock, start, us).Some? ==>
              forall k :: start < k < WaitEnd(clock, start, us).value - 1 ==> clock[k] < clock[start] + us
  {
    if start < |clock| {
      var r := ReachFrom(clock, clock[start] + us, start + 1);
      if r.Some? {
        assert clock[r.value - 1] >= clock[start] + us;
      }
    }
  }

  /** Where `n` back-to-back waits of 1000 microseconds end, the first
      starting at reading 0 and each later one at the reading after the one
      that ended the previous wait. `None` when one of them does not end
      within `clock`. */
  function DelayEnd(clock: seq<nat>, n: nat): (r: Option<nat>)
    ensures r.Some? ==> r.value <= |clock| && (n == 0 <==> r.value == 0)
  {
    if n == 0 then Some(0)
    else match DelayEnd(clock, n - 1)
      case None => None
      case Some(p) => WaitEnd(clock, p, 1000)
  }

  /** Once a wait fails to end, every longer delay fails too. */
  lemma {:induction false} DelayEndStaysNone(clock: seq<nat>, n: nat, m: nat)
    requires n <= m && DelayEnd(clock, n).None?
    ensures DelayEnd(clock, m).None?
    decreases m - n
  {
    if n < m {
      DelayEndStaysNone(clock, n, m - 1);
    }
  }

  /** `delay(1)` ends where one `delayMicroseconds(1000)` started at the
      first reading ends. */
  lemma DelayOneIsOneWait(clock: seq<nat>)
    ensures DelayEnd(clock, 1) == WaitEnd(clock, 0, 1000)
  {}

  /** On a clock that does not run backwards, `n` waits span at least
      `1000 * n` microseconds. */
  lemma {:induction false} DelayEndSpan(clock: seq<nat>, n: nat)
    requires NonDecreasing(clock) && 0 < n && DelayEnd(clock, n).Some?
    ensures clock[DelayEnd(clock, n).value - 1] >= clock[0] + 1000 * n
  {
    var m := n - 1;
    var p := DelayEnd(clock, m).value;
    var e := WaitEnd(clock, p, 1000).value;
    assert DelayEnd(clock, n).value == e;
    assert clock[e - 1] >= clock[p] + 1000;
    if m > 0 {
      DelayEndSpan(clock, m);
      assert clock[p - 1] >= clock[0] + 1000 * m;
      assert clock[p] >= clock[p - 1];
    }
  }

  /** `delayMicroseconds(us)`, starting at reading `start` of the clock:
      `next` is the index of the first reading it did not take. The 64-bit
      sum `now + us` does not wrap, because every value of `micros` is below
      2^43 (`Timebase.MicrosOf`). */
  method DelayMicroseconds(clock: seq<nat>, start: nat, us: u32) returns (done: bool, next: nat)
    requires start <= |clock|
    ensures done <==> WaitEnd(clock, start, us).Some?
    ensures done ==> next == WaitEnd(clock, start, us).value
    ensures !done ==> next == |clock|
  {
    if start == |clock| {
      return false, start;
    }
    var now := clock[start];
    next := start + 1;
    while next < |clock|
      invariant start < next <= |clock|
      invariant ReachFrom(clock, now + us, start + 1) == ReachFrom(clock, now + us, next)
    {
      var t := clock[next];
      next := next + 1;
      if t >= now + us {
        return true, next;
      }
    }
    done := false;
  }

  /** `delay(ms)`: `ms` consecutive calls of `delayMicroseconds(1000)`, each
      starting at the reading after the one that ended the previous call.
      `calls` counts the calls made. It returns exactly when all `ms` waits
      end within `clock`, after the readings they take; on a clock that does
      not run backwards it has then spanned at least `1000 * ms` microseconds. */
  method Delay(clock: seq<nat>, ms: u32) returns (done: bool, used: nat, calls: nat)
    ensures done <==> DelayEnd(clock, ms).Some?
    ensures done ==> used == DelayEnd(clock, ms).value && calls == ms
    ensures used <= |clock| && calls <= ms
    ensures !done ==> used == |clock| && 0 < calls
    ensures !done ==> DelayEnd(clock, calls - 1).Some? && DelayEnd(clock, calls).None?
    ensures done && 0 < ms && NonDecreasing(clock) ==>
              0 < used && clock[used - 1] >= clock[0] + 1000 * ms
  {
    var remaining := ms;
    used, calls := 0, 0;
    while remaining > 0
      invariant calls + remaining == ms
      invariant DelayEnd(clock, calls) == Some(used)
    {
      var ok;
      ok, used := DelayMicroseconds(clock, used, 1000);
      calls, remaining := calls + 1, remaining - 1;
      if !ok {
        DelayEndStaysNone(clock, calls, ms);
        return false, used, calls;
      }
    }
    done := true;
    if 0 < ms && NonDecreasing(clock) {
      DelayEndSpan(clock, ms);
    }
  }
}
