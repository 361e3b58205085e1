// The state machine object: the transition table, the edge counters and the
// current state as fields that its methods update in place.

module FsmMachine {
  import opened FsmGraph
  import opened FsmStep
  import opened FsmTiming

  /**
   * A deterministic finite-state machine over states `T` whose transitions
   * are gated by guards `G`. A trigger attempt is given the value of every
   * guard during that attempt (`holds`); the retrying triggers are given the
   * values for each attempt in turn (`attempts(j)` for attempt `j`).
   */
  class Machine<T(==, 0), G> {
    var trans: map<T, seq<Rule<T, G>>>
    var edges: map<T, Counter>
    var current: T

    /** The two tables as one value. */
    ghost function Tables(): Graph<T, G>
      reads this
    {
      Graph(trans, edges)
    }

    ghost predicate Valid()
      reads this
    {
      FsmGraph.Valid(Tables())
    }

    /** An empty machine; the current state is the default value of `T`. */
    constructor ()
      ensures Valid() && Tables() == EmptyGraph()
    {
      trans := map[];
      edges := map[];
    }

    /** Registers `pre -> next` gated by `guard`; false when refused. */
    method RegisterTransition(pre: T, next: T, guard: G) returns (ok: bool)
      requires Valid()
      modifies this
      ensures Valid() && current == old(current)
      ensures (Tables(), ok) == Register(old(Tables()), pre, next, guard)
    {
      RegisterPreservesValid(Tables(), pre, next, guard);
      if pre == next {
        return false;
      }
      var rules := if pre in trans then trans[pre] else [];
      if Names(rules, next) {
        return false;
      }
      var counters := edges;
      if pre !in counters {
        counters := counters[pre := Counter(0, 0)];
      }
      if next !in counters {
        counters := counters[next := Counter(0, 0)];
      }
      counters := counters[pre := counters[pre].(outEdges := counters[pre].outEdges + 1)];
      counters := counters[next := counters[next].(inEdges := counters[next].inEdges + 1)];
      trans, edges := trans[pre := rules + [Rule(next, guard)]], counters;
      ok := true;
    }

    /** The current state. */
    method State() returns (s: T)
      ensures s == current
    {
      s := current;
    }

    /** Sets the current state; the tables are untouched. */
    method SetState(s: T)
      modifies this
      ensures current == s && trans == old(trans) && edges == old(edges)
    {
      current := s;
    }

    /** A state is terminal exactly when it is known and has no rules. */
    function IsTerminatedState(s: T): (r: bool)
      reads this
      requires Valid()
      ensures r <==> s in edges && s !in trans
    {
      TerminalIffKnownWithoutRules(Tables(), s);
      s in edges && edges[s].outEdges == 0
    }

    /**
     * One trigger attempt: the tables are untouched, the outcome is the
     * step from the current state, and the current state moves only when
     * the attempt commits a transition.
     */
    method TryTrigger(holds: G -> bool) returns (r: Outcome<T>)
      requires Valid()
      modifies this
      ensures Valid() && trans == old(trans) && edges == old(edges)
      ensures r == Step(old(Tables()), old(current), holds)
      ensures current == if r.Changed? then r.to else old(current)
    {
      if IsTerminatedState(current) {
        return Terminal(current);
      }
      if current !in trans {
        return InvalidState;
      }
      var choice, consulted := ScanGuards(trans[current], holds, current);
      match choice
      case Ambiguous =>
        r := AmbiguousState;
      case NoMatch =>
        r := NoChange;
      case Unique(next) =>
        r := Changed(current, next);
        current := next;
    }

    /**
     * The blocking trigger: attempts until one does not find nothing, and
     * reports that attempt's outcome, a failure included. It returns only if
     * some attempt decides, which the precondition states.
     */
    method Trigger(attempts: nat -> G -> bool) returns (r: Outcome<T>)
      requires Valid()
      requires exists j: nat :: Step(Tables(), current, attempts(j)) != NoChange
      modifies this
      ensures Valid() && trans == old(trans) && edges == old(edges)
      ensures r != NoChange
      ensures exists j: nat ::
        && r == Step(old(Tables()), old(current), attempts(j))
        && (forall k: nat :: k < j ==> Step(old(Tables()), old(current), attempts(k)) == NoChange)
      ensures current == if r.Changed? then r.to else old(current)
    {
      ghost var g0, s0 := Tables(), current;
      ghost var last: nat :| Step(g0, s0, attempts(last)) != NoChange;
      var j := 0;
      r := TryTrigger(attempts(0));
      while r == NoChange
        invariant Valid() && Tables() == g0
        invariant j <= last
        invariant r == Step(g0, s0, attempts(j))
        invariant forall k: nat :: k < j ==> Step(g0, s0, attempts(k)) == NoChange
        invariant current == if r.Changed? then r.to else s0
        decreases last - j
      {
        j := j + 1;
        r := TryTrigger(attempts(j));
      }
      assert r == Step(g0, s0, attempts(j));
    }

    /**
     * The timed trigger: an attempt at once, then rounds of one attempt and
     * one reading of the clock, until an attempt decides, a reading fails or
     * a reading is at or after the deadline. The result is true (Changed or
     * Terminal) only when an attempt succeeded.
     */
    method TimedTrigger(deadline: Timespec, clock: seq<ClockSample>, attempts: nat -> G -> bool)
      returns (r: Outcome<T>)
      requires Valid()
      requires FirstWaitEnd(deadline, clock) < |clock|
      modifies this
      ensures Valid() && trans == old(trans) && edges == old(edges)
      ensures r == TimedOutcome(old(Tables()), old(current), deadline, clock, attempts)
      ensures current == if r.Changed? then r.to else old(current)
    {
      ghost var last := FirstWaitEnd(deadline, clock);
      FirstDecisiveIsFirst(Tables(), current, attempts, 0, last + 2);
      r := TryTrigger(attempts(0));
      if r != NoChange {
        return;
      }
      var k := 0;
      while true
        invariant 0 <= k <= last
        invariant Valid() && trans == old(trans) && edges == old(edges) && current == old(current)
        invariant forall j :: 0 <= j <= k ==> Step(old(Tables()), old(current), attempts(j)) == NoChange
        invariant r == NoChange
        decreases last - k
      {
        r := TryTrigger(attempts(k + 1));
        if r != NoChange {
          return;
        }
        if clock[k].ClockFailure? {
          return;
        }
        if IsTimeout(deadline, clock[k].time) {
          return;
        }
        k := k + 1;
      }
    }
  }
}
