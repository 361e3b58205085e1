// The transition graph of the state machine: the transition table (state ->
// ordered rules), the edge counters (state -> inbound/outbound counts), the
// registration of one transition, and the terminal-state classifier.

module FsmGraph {

  /** One outgoing rule of a state: the successor and the guard that gates it. */
  datatype Rule<T, G> = Rule(next: T, guard: G)

  /** Numbers of inbound and outbound rules recorded for one state. */
  datatype Counter = Counter(inEdges: int, outEdges: int)

  /** The two tables of the machine. */
  datatype Graph<T, G> = Graph(trans: map<T, seq<Rule<T, G>>>, edges: map<T, Counter>)

  /** The graph of a machine that was just constructed. */
  function EmptyGraph<T, G>(): Graph<T, G>
  {
    Graph(map[], map[])
  }

  /** The rule list of `s`, empty when the table has no entry for it. */
  function RulesOf<T(==), G>(g: Graph<T, G>, s: T): seq<Rule<T, G>>
  {
    if s in g.trans then g.trans[s] else []
  }

  /** The counters of `s`, zero when the counter table has no entry for it. */
  function CounterOf<T(==), G>(g: Graph<T, G>, s: T): Counter
  {
    if s in g.edges then g.edges[s] else Counter(0, 0)
  }

  /** Some rule of the list leads to `s`. */
  predicate Names<T(==), G>(rules: seq<Rule<T, G>>, s: T)
  {
    exists i :: 0 <= i < |rules| && rules[i].next == s
  }

  /** The states whose rule list leads to `s`. */
  ghost function Predecessors<T, G>(g: Graph<T, G>, s: T): set<T>
  {
    set p | p in g.trans && Names(g.trans[p], s)
  }

  /**
   * The invariant at one state `s`: if it has rules it has counters and at
   * least one rule; no rule of `s` leads back to `s`; every successor of `s`
   * has counters; no successor appears twice in its list; and its counters
   * are the length of its list and the number of lists that name it.
   */
  ghost predicate ValidAt<T, G>(g: Graph<T, G>, s: T)
  {
    var rules := RulesOf(g, s);
    && (s in g.trans ==> s in g.edges && |rules| > 0)
    && (forall i :: 0 <= i < |rules| ==> rules[i].next != s && rules[i].next in g.edges)
    && (forall i, j :: 0 <= i < j < |rules| ==> rules[i].next != rules[j].next)
    && (s in g.edges ==> g.edges[s].outEdges == |rules| && g.edges[s].inEdges == |Predecessors(g, s)|)
  }

  /** The invariant that every sequence of registrations keeps. */
  ghost predicate Valid<T, G>(g: Graph<T, G>)
  {
    forall s {:trigger ValidAt(g, s)} :: s in g.trans.Keys + g.edges.Keys ==> ValidAt(g, s)
  }

  /**
   * Registration of the rule `pre -> next` gated by `guard`: the new graph
   * and whether the rule was accepted (RegisterEffect states what it does).
   */
  function Register<T(==), G>(g: Graph<T, G>, pre: T, next: T, guard: G): (Graph<T, G>, bool)
  {
    if pre == next then (g, false)
    else
      var rules := RulesOf(g, pre);
      if Names(rules, next) then (g, false)
      else
        var e1 := if pre in g.edges then g.edges else g.edges[pre := Counter(0, 0)];
        var e2 := if next in e1 then e1 else e1[next := Counter(0, 0)];
        var e3 := e2[pre := e2[pre].(outEdges := e2[pre].outEdges + 1)];
        var e4 := e3[next := e3[next].(inEdges := e3[next].inEdges + 1)];
        (Graph(g.trans[pre := rules + [Rule(next, guard)]], e4), true)
  }

  /**
   * A self-loop and a successor that `pre` already has are refused with the
   * graph unchanged. Otherwise the rule is appended after `pre`'s earlier
   * rules, counters are created at zero for whichever of the two states had
   * none, the outbound count of `pre` and the inbound count of `next` go up
   * by one, and no other counter changes.
   */
  lemma RegisterEffect<T, G>(g: Graph<T, G>, pre: T, next: T, guard: G)
    ensures Register(g, pre, next, guard).1 <==> pre != next && !Names(RulesOf(g, pre), next)
    ensures !Register(g, pre, next, guard).1 ==> Register(g, pre, next, guard).0 == g
    ensures Register(g, pre, next, guard).1 ==>
      && Register(g, pre, next, guard).0.trans == g.trans[pre := RulesOf(g, pre) + [Rule(next, guard)]]
      && Register(g, pre, next, guard).0.edges.Keys == g.edges.Keys + {pre, next}
      && CounterOf(Register(g, pre, next, guard).0, pre) == Counter(CounterOf(g, pre).inEdges, CounterOf(g, pre).outEdges + 1)
      && CounterOf(Register(g, pre, next, guard).0, next) == Counter(CounterOf(g, next).inEdges + 1, CounterOf(g, next).outEdges)
      && (forall s :: s in g.edges && s != pre && s != next ==> Register(g, pre, next, guard).0.edges[s] == g.edges[s])
  {
  }

  /** A state is terminal when it has counters and no outbound rule. */
  predicate IsTerminal<T(==), G>(g: Graph<T, G>, s: T)
  {
    s in g.edges && g.edges[s].outEdges == 0
  }

  lemma EmptyGraphValid<T, G>()
    ensures Valid(EmptyGraph<T, G>())
  {
  }

  lemma NamesAppend<T, G>(rules: seq<Rule<T, G>>, r: Rule<T, G>, s: T)
    ensures Names(rules + [r], s) <==> Names(rules, s) || r.next == s
  {
    if Names(rules, s) {
      var i :| 0 <= i < |rules| && rules[i].next == s;
      assert (rules + [r])[i] == rules[i];
    }
    if r.next == s {
      assert (rules + [r])[|rules|] == r;
    }
  }

  /** How one accepted registration changes the set of predecessors of `s`. */
  lemma PredecessorsAfterRegister<T, G>(g: Graph<T, G>, pre: T, next: T, guard: G, s: T)
    requires Register(g, pre, next, guard).1
    ensures Predecessors(Register(g, pre, next, guard).0, s)
         == Predecessors(g, s) + (if s == next then {pre} else {})
  {
    RegisterEffect(g, pre, next, guard);
    var g' := Register(g, pre, next, guard).0;
    forall p
      ensures p in Predecessors(g', s) <==> p in Predecessors(g, s) + (if s == next then {pre} else {})
    {
      if p == pre {
        NamesAppend(RulesOf(g, pre), Rule(next, guard), s);
      }
    }
  }

  /** A state without counters is named by no rule. */
  lemma UnknownHasNoPredecessors<T, G>(g: Graph<T, G>, s: T)
    requires Valid(g) && s !in g.edges
    ensures Predecessors(g, s) == {}
  {
    forall p | p in g.trans
      ensures !Names(g.trans[p], s)
    {
      assert ValidAt(g, p);
    }
  }

  /** The successors of `pre` after an accepted registration keep the invariant. */
  lemma RegisterKeepsRules<T, G>(g: Graph<T, G>, pre: T, next: T, guard: G)
    requires Valid(g) && Register(g, pre, next, guard).1
    ensures ValidAt(Register(g, pre, next, guard).0, pre)
  {
    RegisterEffect(g, pre, next, guard);
    var g' := Register(g, pre, next, guard).0;
    var rules := RulesOf(g, pre);
    var rules' := rules + [Rule(next, guard)];
    assert RulesOf(g', pre) == rules';
    assert ValidAt(g, pre);
    forall i, j | 0 <= i < j < |rules'|
      ensures rules'[i].next != rules'[j].next
    {
      assert rules'[i] == rules[i];
      if j < |rules| {
        assert rules'[j] == rules[j];
      }
    }
    PredecessorsAfterRegister(g, pre, next, guard, pre);
    if pre !in g.edges {
      UnknownHasNoPredecessors(g, pre);
    }
  }

  /** Every other state keeps the invariant after an accepted registration. */
  lemma RegisterKeepsOthers<T, G>(g: Graph<T, G>, pre: T, next: T, guard: G, s: T)
    requires Valid(g) && Register(g, pre, next, guard).1 && s != pre
    ensures ValidAt(Register(g, pre, next, guard).0, s)
  {
    RegisterEffect(g, pre, next, guard);
    var g' := Register(g, pre, next, guard).0;
    assert RulesOf(g', s) == RulesOf(g, s);
    assert ValidAt(g, s);
    PredecessorsAfterRegister(g, pre, next, guard, s);
    if s !in g.edges {
      UnknownHasNoPredecessors(g, s);
    }
    if s == next {
      assert pre !in Predecessors(g, next);
    }
  }

  /** Registration, accepted or not, keeps the graph invariant. */
  lemma RegisterPreservesValid<T, G>(g: Graph<T, G>, pre: T, next: T, guard: G)
    requires Valid(g)
    ensures Valid(Register(g, pre, next, guard).0)
  {
    if Register(g, pre, next, guard).1 {
      forall s | s in Register(g, pre, next, guard).0.trans.Keys + Register(g, pre, next, guard).0.edges.Keys
        ensures ValidAt(Register(g, pre, next, guard).0, s)
      {
        if s == pre {
          RegisterKeepsRules(g, pre, next, guard);
        } else {
          RegisterKeepsOthers(g, pre, next, guard, s);
        }
      }
    }
  }

  /** A registered pair cannot be registered a second time, whatever the guard. */
  lemma RegisterTwiceRefused<T, G>(g: Graph<T, G>, pre: T, next: T, g1: G, g2: G)
    ensures !Register(Register(g, pre, next, g1).0, pre, next, g2).1
  {
    var r := Register(g, pre, next, g1);
    RegisterEffect(g, pre, next, g1);
    RegisterEffect(r.0, pre, next, g2);
    if r.1 {
      NamesAppend(RulesOf(g, pre), Rule(next, g1), next);
    }
  }

  /**
   * In a valid graph a state is terminal exactly when it has counters but no
   * rules; a state that never appeared in a registration is not terminal.
   */
  lemma TerminalIffKnownWithoutRules<T, G>(g: Graph<T, G>, s: T)
    requires Valid(g)
    ensures IsTerminal(g, s) <==> s in g.edges && s !in g.trans
    ensures s !in g.edges ==> !IsTerminal(g, s)
  {
    assert ValidAt(g, s);
  }
}
