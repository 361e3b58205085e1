# A verified model of the `FSM<T>` state machine

`fsm.h` defines `FSM<T>`, a generic deterministic finite-state machine. A
caller registers guarded transitions `pre -> next`. The machine keeps a
transition table (state -> successors and guards, in registration order) and
an edge-counter table (state -> inbound and outbound counts). The caller
sets the current state and then triggers the machine: one attempt scans the
current state's guards once, and commits a transition only when exactly one
guard holds. The blocking and timed triggers repeat that attempt.

The model has five modules, one file each:

- `FsmGraph` (`fsm_graph.dfy`): the two tables as a value (`Graph`) and
  registration as a function (`Register`). It also holds the invariant that
  registration keeps (`Valid`, stated state by state in `ValidAt`: no
  self-loops, no duplicate successors, counters equal to the table's
  out-degrees and in-degrees) and the terminal
  classifier (`IsTerminal`).
- `FsmStep` (`fsm_step.dfy`): one trigger attempt. `Step` is the outcome as a
  function of the tables, the current state and the guard values. `ScanGuards`
  is the scan loop, proved against `Choose`. The lemmas state the outcome
  in terms of the set of guards that hold.
- `FsmTiming` (`fsm_timing.dfy`): the deadline comparison, the clock as a
  sequence of readings, and `TimedOutcome`. That function says which attempt
  decides the result of the timed trigger.
- `FsmMachine` (`fsm_machine.dfy`): the class `Machine`. Its fields are the
  source's `_trans_tbl`, `_edges_tbl` and `_state`, and its methods update
  them in place. Each method is proved against the functions above.
- `FsmScenarios` (`fsm_scenarios.dfy`): two client methods that drive a
  `Machine` using only the methods' contracts. One is the Idle/Running/Done
  walk-through; the other has two guards true at once.

Guards are opaque values of a type `G`. A trigger attempt receives
`holds: G -> bool`, which gives each guard's value during that attempt. The
retrying triggers receive `attempts: nat -> G -> bool`, whose entry `j` holds
the guard values for attempt `j`. The two exceptions `invalid_state_error`
and `ambiguous_state_error` become the `InvalidState` and `AmbiguousState`
values of `Outcome`. `Changed(old, new)` and `Terminal(s)` stand for a `true`
result together with the `old_state`/`new_state` outputs. `NoChange` stands
for `false`, where the outputs are not written.

The code checks the transition table when it raises `invalid_state_error`;
it does not check the counter table. Under the invariant the two checks
agree: `StepClassified` proves that an attempt is invalid exactly when the
current state has no counter entry, which is how the behaviour is usually
described.

## Model

| member | source | states |
|---|---|---|
| FsmGraph.Register | fsm.h:96-124 | Registration as a function of the two tables: a self-loop or a successor `pre` already has is refused with both tables unchanged. Otherwise the rule is appended to `pre`'s list, zero counters are created for a state without them, and `pre`'s out-count and `next`'s in-count go up by one. `RegisterEffect` states this. |
| FsmGraph.RegisterEffect | fsm.h:96-124 | Registration is refused, leaving both tables unchanged, exactly when `pre == next` or `next` is already a successor of `pre`. An accepted rule is appended after `pre`'s earlier rules. Zero counters are created for a state that has none. Only `pre`'s outbound count and `next`'s inbound count change, each by one. |
| FsmGraph.RegisterPreservesValid | fsm.h:96-124 | Every registration keeps the invariant: no self-loops, no duplicate successor in a list, every listed successor has counters, and every state with rules has counters. Each out-count equals the length of that state's rule list, and each in-count equals the number of lists naming the state. |
| FsmGraph.RegisterKeepsRules | fsm.h:103-121 | After an accepted registration, `pre` keeps the invariant: its extended list has no self-loop and no duplicate, every successor in it has counters, and its counters equal the new list's length and its number of predecessors. |
| FsmGraph.RegisterKeepsOthers | fsm.h:113-121 | After an accepted registration, every state other than `pre` keeps the invariant. In particular `next`'s in-count, raised by one, equals its new number of predecessors. |
| FsmGraph.UnknownHasNoPredecessors | fsm.h:113-121 | In a valid graph, a state without counters is named by no rule, so a counter created at zero for it is correct. |
| FsmGraph.PredecessorsAfterRegister | fsm.h:111-121 | An accepted rule `pre -> next` adds `pre` to the predecessors of `next` and changes no other state's predecessors. |
| FsmGraph.RegisterTwiceRefused | fsm.h:103-109 | Registering the same pair a second time is refused, whatever the guard. |
| FsmGraph.EmptyGraphValid | fsm.h:87-89 | The empty tables of a new machine satisfy the invariant. |
| FsmGraph.IsTerminal | fsm.h:137-143 | A state is terminal when it has a counter entry whose out-count is zero. An unknown state is not terminal. |
| FsmGraph.TerminalIffKnownWithoutRules | fsm.h:137-143 | In a valid graph a state is terminal exactly when it has counters and no rules. A state that never appeared in a registration is not terminal. |
| FsmStep.Choose | fsm.h:171-188 | The result of scanning one rule list: no match when no guard holds, the successor of the one guard that holds, or ambiguity when a second guard holds. |
| FsmStep.Step | fsm.h:156-188 | One trigger attempt on state `s`: `Terminal(s)` for a terminal state, then `InvalidState` when `s` has no rules, and otherwise the outcome of `Choose` on `s`'s rules (no change, `Changed(s, n)` or `AmbiguousState`). |
| FsmStep.ScanGuards | fsm.h:171-188 | The scan loop gives the choice `Choose` defines: no match, the unique successor, or ambiguity. When it reports ambiguity it has evaluated exactly the guards up to the second one that holds; otherwise it has evaluated all of them. |
| FsmStep.MatchesGrow | fsm.h:173-181 | The successors found in a shorter prefix of the scan are a prefix of those found in a longer one, so a second match can never disappear later in the scan. |
| FsmStep.MatchesCount | fsm.h:173-177 | The scan's count of matches equals the number of guards that hold. |
| FsmStep.SingleMatch | fsm.h:173-177 | When exactly one guard holds, the scan's remembered successor is that rule's successor. |
| FsmStep.ChooseCharacterized | fsm.h:171-188 | The choice is no match iff no guard holds, and ambiguity iff two or more hold. It is `Unique(n)` iff exactly one guard holds and its rule leads to `n`. |
| FsmStep.AmbiguityDecidedByPrefix | fsm.h:173-181 | Once two guards have held, the outcome is ambiguity whatever the later guards give, so those guards need not be evaluated. |
| FsmStep.StepClassified | fsm.h:156-188 | In a valid graph, an attempt on state `s` is trapped (`Terminal(s)`) iff `s` is known and has no rules. It is invalid iff `s` has no counters. It finds nothing iff no guard of `s` holds, and it is ambiguous iff two or more hold. |
| FsmStep.StepCommitsUniqueMatch | fsm.h:183-188 | An attempt commits `from -> to` iff `from` is the current state and exactly one of its guards holds, the one leading to `to`. `to` is then a known state other than `from`. |
| FsmTiming.IsTimeout | fsm.h:195-198 | The deadline test: the current time's seconds are past the deadline's, or the seconds are equal and the nanoseconds are at or past the deadline's. |
| FsmTiming.TimeoutIsNanosecondOrder | fsm.h:195-198 | For normalized times, the deadline test holds iff the current time, counted in nanoseconds, is at or after the deadline. |
| FsmTiming.TimeoutIsTotalPreorder | fsm.h:195-198 | The deadline test is reflexive, total and transitive: it is the lexicographic (seconds, nanoseconds) order. |
| FsmTiming.FirstWaitEnd | fsm.h:214-219 | Finds the first clock reading that fails or is at or after the deadline. All earlier readings are in time and before the deadline. |
| FsmTiming.FirstDecisive | fsm.h:200-212 | A run of `count` attempts on a fixed state: the first outcome other than no change, or no change when every attempt finds nothing. |
| FsmTiming.FirstDecisiveIsFirst | fsm.h:200-212 | A run of attempts finds nothing iff every attempt finds nothing. Otherwise its result is the outcome of the first attempt that does something, including an error, and such an attempt exists. |
| FsmTiming.TimedOutcome | fsm.h:200-222 | The timed trigger's result on a clock with a reading that ends the wait: the run of attempts 0 to `FirstWaitEnd + 1`, that is attempt 0 at once and one more attempt before each reading up to the one that ends the wait. |
| FsmTiming.TimedSucceedsIff | fsm.h:200-222 | The timed trigger returns true iff some attempt made before the first reading that ends the wait succeeds, and every attempt before it found nothing. |
| FsmTiming.TimedRetriesBeforeClock | fsm.h:200-212 | After a failed first attempt, a second attempt is always made before the clock is read, even when the deadline has already passed. |
| FsmTiming.TimedPastDeadlineStops | fsm.h:200-222 | When the first reading fails or is past the deadline, exactly two attempts are made, and the result is the first of them that does something. |
| FsmMachine.Machine.constructor | fsm.h:87-89 | A new machine has empty tables, which satisfy the invariant. |
| FsmMachine.Machine.RegisterTransition | fsm.h:95-124 | The new tables and the result are those of `Register` on the old tables. The invariant is kept and the current state is untouched. |
| FsmMachine.Machine.State | fsm.h:126-129 | Returns the current state. |
| FsmMachine.Machine.SetState | fsm.h:131-134 | Sets the current state and leaves both tables unchanged. |
| FsmMachine.Machine.IsTerminatedState | fsm.h:136-143 | True exactly for a known state that has no rules. It reads the tables and changes nothing. |
| FsmMachine.Machine.TryTrigger | fsm.h:155-189 | The outcome is `Step` from the old current state. The tables are unchanged. The current state moves to the successor only on a committed transition; on a trap, no match or an error it stays. |
| FsmMachine.Machine.Trigger | fsm.h:145-153 | Returns the outcome of the first attempt that does something: a success or a propagated error, never "no change". The current state moves only on a committed transition. |
| FsmMachine.Machine.TimedTrigger | fsm.h:191-223 | The outcome is `TimedOutcome` for the old state, the deadline, the clock readings and the per-attempt guard values. The tables are unchanged, and the current state moves only on a committed transition. |

## Left out

- `std::this_thread::yield()` is a scheduler hint with no effect on the result, so it is not modelled.
- Thread safety is not modelled: the class is documented as not safe for concurrent use.
- Guards are opaque: the model does not call a `std::function` and has no guard side effects. Each attempt sees one value per guard id, given by `holds`. Two rules that share a guard id therefore see the same value within an attempt.
- The edge counters are `int32_t` in the source but unbounded integers here. Overflow would need more than 2^31 registrations.
- `std::unordered_map` hashing is replaced by Dafny maps over a type with equality.
- `clock_gettime` is a foreign call. It is replaced by a sequence of readings, each a time or a failure. Wall-clock adjustments are just other readings.
- The exception classes and their `what()` strings become the two error values of `Outcome`. The empty destructor is not modelled.
- FsmMachine.Machine.constructor: the initial state is unspecified until `SetState`; the contract says nothing about it. `T(0)` is only needed so that Dafny can create the field.
- FsmMachine.Machine.Trigger: runs in which every attempt finds nothing do not terminate in the source. The model covers only runs that return: its precondition states that some attempt does something.
- FsmTiming.TimedOutcome: defined only for clocks with a reading that fails or reaches the deadline, and so are the lemmas about it.
- FsmMachine.Machine.TimedTrigger: the model requires some clock reading to end the wait, by failing or by reaching the deadline. A clock that never reaches the deadline keeps the source looping, and that run is not modelled.
- FsmMachine.Machine.IsTerminatedState: its contract assumes the class invariant, which every machine built by the constructor and the registration method satisfies. On tables that break the invariant the model says nothing.
