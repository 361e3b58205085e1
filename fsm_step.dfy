// One trigger step: the scan of the current state's guards in registration
// order and the outcome it leads to. Guards are opaque; `holds` is the value
// each guard gives during this one scan.

module FsmStep {
  import opened FsmGraph

  /**
   * What one trigger attempt does. `Changed` and `Terminal` are the two ways
   * the attempt succeeds, `NoChange` is the ordinary "nothing fired yet"
   * failure, and the last two stand for the exceptions the attempt raises.
   */
  datatype Outcome<T> =
    | Changed(from: T, to: T)
    | Terminal(state: T)
    | NoChange
    | InvalidState
    | AmbiguousState
  {
    /** The attempt reports success to its caller. */
    predicate Succeeded()
    {
      Changed? || Terminal?
    }
  }

  /** What the scan of one rule list finds. */
  datatype Choice<T> = NoMatch | Unique(next: T) | Ambiguous

  /** The successors, in registration order, of the first `n` rules whose guard holds. */
  function MatchesUpTo<T, G>(rules: seq<Rule<T, G>>, holds: G -> bool, n: nat): (m: seq<T>)
    requires n <= |rules|
    ensures |m| <= n
  {
    if n == 0 then []
    else MatchesUpTo(rules, holds, n - 1) + (if holds(rules[n - 1].guard) then [rules[n - 1].next] else [])
  }

  /** The positions, among the first `n` rules, of the guards that hold. */
  ghost function TruePositions<T, G>(rules: seq<Rule<T, G>>, holds: G -> bool, n: nat): set<int>
  {
    set i | 0 <= i < n && i < |rules| && holds(rules[i].guard)
  }

  /** The choice the whole rule list leads to. */
  function Choose<T, G>(rules: seq<Rule<T, G>>, holds: G -> bool): Choice<T>
  {
    var m := MatchesUpTo(rules, holds, |rules|);
    if |m| == 0 then NoMatch else if |m| == 1 then Unique(m[0]) else Ambiguous
  }

  /**
   * One trigger attempt on state `s`: a terminal state is trapped, a state
   * without rules is invalid, and otherwise the scan decides.
   */
  function Step<T(==), G>(g: Graph<T, G>, s: T, holds: G -> bool): Outcome<T>
  {
    if IsTerminal(g, s) then Terminal(s)
    else if s !in g.trans then InvalidState
    else match Choose(g.trans[s], holds)
      case NoMatch => NoChange
      case Unique(n) => Changed(s, n)
      case Ambiguous => AmbiguousState
  }

  /**
   * The scan loop of an attempt: evaluates the guards in registration order,
   * counting those that hold and remembering the last such successor
   * (starting from `current`), and gives up as soon as a second guard holds.
   * `consulted` is the number of guards evaluated.
   */
  method ScanGuards<T, G>(rules: seq<Rule<T, G>>, holds: G -> bool, current: T)
    returns (c: Choice<T>, ghost consulted: nat)
    ensures c == Choose(rules, holds)
    ensures consulted <= |rules|
    ensures c != Ambiguous ==> consulted == |rules|
    ensures c == Ambiguous ==>
      0 < consulted && holds(rules[consulted - 1].guard) && |MatchesUpTo(rules, holds, consulted)| == 2
  {
    var count := 0;
    var chosen := current;
    var i := 0;
    while i < |rules|
      invariant 0 <= i <= |rules|
      invariant count == |MatchesUpTo(rules, holds, i)| <= 1
      invariant count == 1 ==> chosen == MatchesUpTo(rules, holds, i)[0]
    {
      assert MatchesUpTo(rules, holds, i + 1)
          == MatchesUpTo(rules, holds, i) + (if holds(rules[i].guard) then [rules[i].next] else []);
      if holds(rules[i].guard) {
        count := count + 1;
        chosen := rules[i].next;
      }
      if count > 1 {
        MatchesGrow(rules, holds, i + 1, |rules|);
        return Ambiguous, i + 1;
      }
      i := i + 1;
    }
    c := if count == 1 then Unique(chosen) else NoMatch;
    consulted := |rules|;
  }

  /** The matches of a shorter prefix are a prefix of the matches of a longer one. */
  lemma {:induction false} MatchesGrow<T, G>(rules: seq<Rule<T, G>>, holds: G -> bool, i: nat, j: nat)
    requires i <= j <= |rules|
    ensures MatchesUpTo(rules, holds, i) <= MatchesUpTo(rules, holds, j)
  {
    if i < j {
      MatchesGrow(rules, holds, i, j - 1);
    }
  }

  /** Two snapshots that agree on the first `n` guards find the same matches there. */
  lemma {:induction false} MatchesAgree<T, G>(rules: seq<Rule<T, G>>, holds: G -> bool, holds': G -> bool, n: nat)
    requires n <= |rules|
    requires forall i :: 0 <= i < n ==> holds(rules[i].guard) == holds'(rules[i].guard)
    ensures MatchesUpTo(rules, holds, n) == MatchesUpTo(rules, holds', n)
  {
    if n > 0 {
      MatchesAgree(rules, holds, holds', n - 1);
    }
  }

  /** There are as many matches as guards that hold. */
  lemma {:induction false} MatchesCount<T, G>(rules: seq<Rule<T, G>>, holds: G -> bool, n: nat)
    requires n <= |rules|
    ensures |MatchesUpTo(rules, holds, n)| == |TruePositions(rules, holds, n)|
  {
    if n > 0 {
      MatchesCount(rules, holds, n - 1);
      var before := TruePositions(rules, holds, n - 1);
      assert n - 1 !in before;
      if holds(rules[n - 1].guard) {
        assert TruePositions(rules, holds, n) == before + {n - 1};
      } else {
        assert TruePositions(rules, holds, n) == before;
      }
    }
  }

  /** When exactly the guard at `i` holds, the matches are that rule's successor alone. */
  lemma {:induction false} SingleMatch<T, G>(rules: seq<Rule<T, G>>, holds: G -> bool, n: nat, i: int)
    requires n <= |rules|
    requires TruePositions(rules, holds, n) == {i}
    ensures 0 <= i < n && MatchesUpTo(rules, holds, n) == [rules[i].next]
  {
    assert i in TruePositions(rules, holds, n);
    if i == n - 1 {
      // One guard holds among the first n, and it is the last of them.
      MatchesCount(rules, holds, n);
    } else {
      assert !holds(rules[n - 1].guard) by {
        assert n - 1 !in TruePositions(rules, holds, n);
      }
      assert TruePositions(rules, holds, n - 1) == {i} by {
        assert forall k :: k in TruePositions(rules, holds, n - 1) <==> k in TruePositions(rules, holds, n);
      }
      SingleMatch(rules, holds, n - 1, i);
    }
  }

  /**
   * The scan's choice in terms of the set of guards that hold: none, exactly
   * one (and then its successor), or two or more.
   */
  lemma ChooseCharacterized<T, G>(rules: seq<Rule<T, G>>, holds: G -> bool, next: T)
    ensures Choose(rules, holds) == NoMatch <==> TruePositions(rules, holds, |rules|) == {}
    ensures Choose(rules, holds) == Ambiguous <==> |TruePositions(rules, holds, |rules|)| >= 2
    ensures Choose(rules, holds) == Unique(next) <==>
      exists i :: 0 <= i < |rules| && TruePositions(rules, holds, |rules|) == {i} && rules[i].next == next
  {
    var trues := TruePositions(rules, holds, |rules|);
    MatchesCount(rules, holds, |rules|);
    if |trues| == 1 {
      var i :| i in trues;
      assert trues == {i} by {
        assert |trues - {i}| == 0;
      }
      SingleMatch(rules, holds, |rules|, i);
    }
    if exists i :: 0 <= i < |rules| && trues == {i} && rules[i].next == next {
      var i :| 0 <= i < |rules| && trues == {i} && rules[i].next == next;
      SingleMatch(rules, holds, |rules|, i);
    }
  }

  /**
   * Ambiguity is decided by the guards up to the second one that holds: any
   * snapshot that agrees with `holds` on them leads to `Ambiguous`, whatever
   * the later guards give. Together with ScanGuards' `consulted`, this is why
   * the later guards need not be evaluated.
   */
  lemma AmbiguityDecidedByPrefix<T, G>(rules: seq<Rule<T, G>>, holds: G -> bool, holds': G -> bool, n: nat)
    requires n <= |rules| && |MatchesUpTo(rules, holds, n)| >= 2
    requires forall i :: 0 <= i < n ==> holds(rules[i].guard) == holds'(rules[i].guard)
    ensures Choose(rules, holds') == Ambiguous
  {
    MatchesAgree(rules, holds, holds', n);
    MatchesGrow(rules, holds', n, |rules|);
  }

  /**
   * In a valid graph, the outcome of an attempt on `s` is decided as follows:
   * trapped exactly when `s` is known and has no rules, invalid exactly when
   * `s` is unknown, no change exactly when no guard holds, ambiguous exactly
   * when two or more hold.
   */
  lemma StepClassified<T, G>(g: Graph<T, G>, s: T, holds: G -> bool)
    requires Valid(g)
    ensures Step(g, s, holds) == Terminal(s) <==> s in g.edges && s !in g.trans
    ensures Step(g, s, holds) == InvalidState <==> s !in g.edges
    ensures Step(g, s, holds) == NoChange <==> s in g.trans && TruePositions(g.trans[s], holds, |g.trans[s]|) == {}
    ensures Step(g, s, holds) == AmbiguousState <==> s in g.trans && |TruePositions(g.trans[s], holds, |g.trans[s]|)| >= 2
  {
    TerminalIffKnownWithoutRules(g, s);
    if s in g.trans {
      assert ValidAt(g, s);
      ChooseCharacterized(g.trans[s], holds, s);
    }
  }

  /**
   * An attempt commits `from -> to` exactly when `from` is the current state,
   * it has rules, and exactly one of its guards holds, the one leading to
   * `to`. In a valid graph `to` is then a known state other than `from`.
   */
  lemma StepCommitsUniqueMatch<T, G>(g: Graph<T, G>, s: T, holds: G -> bool, from: T, to: T)
    requires Valid(g)
    ensures Step(g, s, holds) == Changed(from, to) <==>
      from == s && s in g.trans &&
      exists i :: 0 <= i < |g.trans[s]| && TruePositions(g.trans[s], holds, |g.trans[s]|) == {i} && g.trans[s][i].next == to
    ensures Step(g, s, holds) == Changed(from, to) ==> to in g.edges && to != from
  {
    if s in g.trans {
      assert ValidAt(g, s);
      ChooseCharacterized(g.trans[s], holds, to);
      if Step(g, s, holds) == Changed(from, to) {
        var i :| 0 <= i < |g.trans[s]| && TruePositions(g.trans[s], holds, |g.trans[s]|) == {i} && g.trans[s][i].next == to;
        assert g.trans[s][i].next != s;
      }
    }
  }
}
