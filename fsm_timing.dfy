// The retry loops around a trigger attempt: the deadline comparison of the
// timed variant, the clock samples it takes, and which attempt decides the
// result. The wall clock is an input: a sequence of samples, one per clock
// reading, each a time or a failed reading.

module FsmTiming {
  import opened FsmGraph
  import opened FsmStep

  /** A wall-clock time: whole seconds and nanoseconds. */
  datatype Timespec = Timespec(sec: int, nsec: int)

  /** One reading of the wall clock. */
  datatype ClockSample = Now(time: Timespec) | ClockFailure

  const NanosPerSecond: int := 1_000_000_000

  /** The deadline is reached: `now` is at or after it, seconds first, then nanoseconds. */
  predicate IsTimeout(deadline: Timespec, now: Timespec)
  {
    now.sec > deadline.sec || (now.sec == deadline.sec && now.nsec >= deadline.nsec)
  }

  /** The nanosecond field is within one second. */
  predicate Normalized(t: Timespec)
  {
    0 <= t.nsec < NanosPerSecond
  }

  /** A time as a single count of nanoseconds. */
  function TotalNanos(t: Timespec): int
  {
    t.sec * NanosPerSecond + t.nsec
  }

  /** For normalized times, the comparison is the order of nanosecond counts. */
  lemma TimeoutIsNanosecondOrder(deadline: Timespec, now: Timespec)
    requires Normalized(deadline) && Normalized(now)
    ensures IsTimeout(deadline, now) <==> TotalNanos(now) >= TotalNanos(deadline)
  {
    if now.sec > deadline.sec {
      assert TotalNanos(now) >= (deadline.sec + 1) * NanosPerSecond;
    } else if now.sec < deadline.sec {
      assert TotalNanos(deadline) >= (now.sec + 1) * NanosPerSecond;
    }
  }

  /**
   * The comparison is a total preorder on times: every time has reached
   * itself, of two times one has reached the other, and a time that has
   * reached a later time has reached the deadline too.
   */
  lemma TimeoutIsTotalPreorder(a: Timespec, b: Timespec, c: Timespec)
    ensures IsTimeout(a, a)
    ensures IsTimeout(a, b) || IsTimeout(b, a)
    ensures IsTimeout(a, b) && IsTimeout(b, c) ==> IsTimeout(a, c)
  {
  }

  /** A reading ends the wait: the clock failed, or the deadline is reached. */
  predicate EndsWait(deadline: Timespec, sample: ClockSample)
  {
    sample.ClockFailure? || IsTimeout(deadline, sample.time)
  }

  /** The position of the first reading that ends the wait; `|clock|` when none does. */
  function FirstWaitEnd(deadline: Timespec, clock: seq<ClockSample>): (k: nat)
    ensures k <= |clock|
    ensures forall j :: 0 <= j < k ==> !EndsWait(deadline, clock[j])
    ensures k < |clock| ==> EndsWait(deadline, clock[k])
  {
    if |clock| == 0 then 0
    else if EndsWait(deadline, clock[0]) then 0
    else 1 + FirstWaitEnd(deadline, clock[1..])
  }

  /**
   * Attempts `from`, ..., `from + count - 1` on state `s`, attempt `j` seeing
   * the guard values `attempts(j)`: the first outcome other than NoChange, or
   * NoChange when every attempt finds nothing. The state stays `s` between
   * attempts because an attempt that finds nothing does not change it.
   */
  function FirstDecisive<T(==), G>(g: Graph<T, G>, s: T, attempts: nat -> G -> bool, from: nat, count: nat): Outcome<T>
    decreases count
  {
    if count == 0 then NoChange
    else
      var r := Step(g, s, attempts(from));
      if r != NoChange then r else FirstDecisive(g, s, attempts, from + 1, count - 1)
  }

  /**
   * The timed trigger: attempt 0 at once, then, for each reading `k` of the
   * clock, attempt `k + 1` followed by reading `k`, until an attempt decides
   * or a reading ends the wait. Only clocks with such a reading are
   * described: on any other clock the trigger keeps polling.
   */
  function TimedOutcome<T(==), G>(g: Graph<T, G>, s: T, deadline: Timespec, clock: seq<ClockSample>,
                                 attempts: nat -> G -> bool): Outcome<T>
    requires FirstWaitEnd(deadline, clock) < |clock|
  {
    FirstDecisive(g, s, attempts, 0, FirstWaitEnd(deadline, clock) + 2)
  }

  /**
   * The result of a run of attempts is NoChange exactly when every attempt
   * finds nothing, and otherwise is the outcome of the first attempt that
   * does not.
   */
  lemma {:induction false} FirstDecisiveIsFirst<T, G>(g: Graph<T, G>, s: T, attempts: nat -> G -> bool, from: nat, count: nat)
    ensures FirstDecisive(g, s, attempts, from, count) == NoChange <==>
      forall j :: from <= j < from + count ==> Step(g, s, attempts(j)) == NoChange
    ensures forall j ::
      (&& from <= j < from + count
       && Step(g, s, attempts(j)) != NoChange
       && (forall k :: from <= k < j ==> Step(g, s, attempts(k)) == NoChange))
      ==> FirstDecisive(g, s, attempts, from, count) == Step(g, s, attempts(j))
    ensures FirstDecisive(g, s, attempts, from, count) != NoChange ==> exists j ::
      && from <= j < from + count
      && Step(g, s, attempts(j)) == FirstDecisive(g, s, attempts, from, count)
      && (forall k :: from <= k < j ==> Step(g, s, attempts(k)) == NoChange)
    decreases count
  {
    if count > 0 {
      FirstDecisiveIsFirst(g, s, attempts, from + 1, count - 1);
      if Step(g, s, attempts(from)) != NoChange {
        assert from <= from < from + count;
      }
    }
  }

  /**
   * The timed trigger succeeds exactly when some attempt made before the
   * first reading that ends the wait succeeds and every attempt before it
   * found nothing.
   */
  lemma TimedSucceedsIff<T, G>(g: Graph<T, G>, s: T, deadline: Timespec, clock: seq<ClockSample>, attempts: nat -> G -> bool)
    requires FirstWaitEnd(deadline, clock) < |clock|
    ensures TimedOutcome(g, s, deadline, clock, attempts).Succeeded() <==>
      exists j ::
        && 0 <= j < FirstWaitEnd(deadline, clock) + 2
        && Step(g, s, attempts(j)).Succeeded()
        && (forall k :: 0 <= k < j ==> Step(g, s, attempts(k)) == NoChange)
  {
    var n := FirstWaitEnd(deadline, clock) + 2;
    FirstDecisiveIsFirst(g, s, attempts, 0, n);
  }

  /**
   * The timed trigger always retries once before it reads the clock: when
   * the first attempt finds nothing and the second decides, the second's
   * outcome is the result, whatever the clock reads, a deadline already past
   * included.
   */
  lemma TimedRetriesBeforeClock<T, G>(g: Graph<T, G>, s: T, deadline: Timespec, clock: seq<ClockSample>, attempts: nat -> G -> bool)
    requires FirstWaitEnd(deadline, clock) < |clock|
    requires Step(g, s, attempts(0)) == NoChange && Step(g, s, attempts(1)) != NoChange
    ensures TimedOutcome(g, s, deadline, clock, attempts) == Step(g, s, attempts(1))
  {
    FirstDecisiveIsFirst(g, s, attempts, 0, FirstWaitEnd(deadline, clock) + 2);
  }

  /**
   * With the deadline already past at the first reading (or that reading
   * failing), the timed trigger makes exactly two attempts: it fails when
   * both find nothing.
   */
  lemma TimedPastDeadlineStops<T, G>(g: Graph<T, G>, s: T, deadline: Timespec, clock: seq<ClockSample>, attempts: nat -> G -> bool)
    requires |clock| > 0 && EndsWait(deadline, clock[0])
    ensures TimedOutcome(g, s, deadline, clock, attempts) ==
      if Step(g, s, attempts(0)) != NoChange then Step(g, s, attempts(0)) else Step(g, s, attempts(1))
  {
    FirstDecisiveIsFirst(g, s, attempts, 0, 2);
  }
}
