/**
 * The trace A B A C, for any three distinct pages, replayed against two
 * slots by each simulator, one reference per lemma. A and B are placed
 * without counting; the reference to C is the only one counted. The three
 * policies disagree on the victim: LRU drops B, which was referenced less
 * recently; FIFO and Clock drop A, which was inserted first, although A was
 * referenced again.
 */
module Scenarios {
  import Lru
  import Fifo
  import Clock

  /** Replaying a trace is replaying all but its last reference, then one LRU step. */
  lemma LruRunLast(t: seq<int>, p: seq<int>, d: int)
    requires t == p + [d]
    ensures Lru.Run(2, t) == Lru.Step(2, Lru.Run(2, p), d)
  {
    assert t[..|p|] == p;
  }

  lemma LruAfterA(a: int)
    ensures Lru.Run(2, [a]).slots == [a, 0]
    ensures Lru.Run(2, [a]).resident == {a}
    ensures Lru.Run(2, [a]).faults == 0
  {
    LruRunLast([a], [], a);
  }

  /** With A in slot 0, B goes into slot 1 with age 0. */
  lemma LruPlacesB(st: Lru.State, a: int, b: int)
    requires a != b
    requires Lru.Valid(2, st) && st.slots == [a, 0] && st.resident == {a} && st.faults == 0
    ensures Lru.Step(2, st, b).slots == [a, b]
    ensures Lru.Step(2, st, b).resident == {a, b}
    ensures Lru.Step(2, st, b).faults == 0
    ensures Lru.Step(2, st, b).ages[1] == 0
  {
    Lru.StepAges(2, st, b);
  }

  lemma LruAfterAB(a: int, b: int)
    requires a != b
    ensures Lru.Run(2, [a, b]).slots == [a, b]
    ensures Lru.Run(2, [a, b]).resident == {a, b}
    ensures Lru.Run(2, [a, b]).faults == 0
    ensures Lru.Run(2, [a, b]).ages[1] == 0
  {
    LruAfterA(a);
    LruRunLast([a, b], [a], b);
    LruPlacesB(Lru.Run(2, [a]), a, b);
  }

  /** The hit on A makes A the younger of the two. */
  lemma LruTouchesA(st: Lru.State, a: int, b: int)
    requires a != b
    requires Lru.Valid(2, st) && st.slots == [a, b] && st.resident == {a, b} && st.faults == 0
    requires st.ages[1] == 0
    ensures Lru.Step(2, st, a).slots == [a, b]
    ensures Lru.Step(2, st, a).resident == {a, b}
    ensures Lru.Step(2, st, a).faults == 0
    ensures Lru.Step(2, st, a).ages[0] < Lru.Step(2, st, a).ages[1]
  {
    Lru.StepAges(2, st, a);
  }

  lemma LruAfterABA(a: int, b: int)
    requires a != b
    ensures Lru.Run(2, [a, b, a]).slots == [a, b]
    ensures Lru.Run(2, [a, b, a]).resident == {a, b}
    ensures Lru.Run(2, [a, b, a]).faults == 0
    ensures Lru.Run(2, [a, b, a]).ages[0] < Lru.Run(2, [a, b, a]).ages[1]
  {
    LruAfterAB(a, b);
    LruRunLast([a, b, a], [a, b], a);
    LruTouchesA(Lru.Run(2, [a, b]), a, b);
  }

  /** From A and B resident, A the younger, C evicts B and is counted. */
  lemma LruEvictsB(st: Lru.State, a: int, b: int, c: int)
    requires a != b && b != c && a != c
    requires Lru.Valid(2, st) && st.slots == [a, b] && st.resident == {a, b} && st.faults == 0
    requires st.ages[0] < st.ages[1]
    ensures Lru.Step(2, st, c).resident == {a, c}
    ensures Lru.Step(2, st, c).faults == 1
  {
    assert !Lru.IsOldest(st.ages, 0);
  }

  /** C evicts B, the page referenced least recently, and is the only reference counted. */
  lemma LruOnABAC(a: int, b: int, c: int)
    requires a != b && b != c && a != c
    ensures Lru.Run(2, [a, b, a, c]).resident == {a, c}
    ensures Lru.Run(2, [a, b, a, c]).faults == 1
  {
    LruAfterABA(a, b);
    LruRunLast([a, b, a, c], [a, b, a], c);
    LruEvictsB(Lru.Run(2, [a, b, a]), a, b, c);
  }

  /** Replaying a trace is replaying all but its last reference, then one FIFO step. */
  lemma FifoRunLast(t: seq<int>, p: seq<int>, d: int)
    requires t == p + [d]
    ensures Fifo.Run(2, t) == Fifo.Step(2, Fifo.Run(2, p), d)
  {
    assert t[..|p|] == p;
  }

  lemma FifoAfterA(a: int)
    ensures Fifo.Run(2, [a]).queue == [a]
    ensures Fifo.Run(2, [a]).resident == {a}
    ensures Fifo.Run(2, [a]).faults == 0
  {
    FifoRunLast([a], [], a);
  }

  /** With A queued, B joins the back of the queue. */
  lemma FifoAdmitsB(st: Fifo.State, a: int, b: int)
    requires a != b
    requires Fifo.Valid(2, st) && st.queue == [a] && st.resident == {a} && st.faults == 0
    ensures Fifo.Step(2, st, b).queue == [a, b]
    ensures Fifo.Step(2, st, b).resident == {a, b}
    ensures Fifo.Step(2, st, b).faults == 0
  {
  }

  lemma FifoAfterAB(a: int, b: int)
    requires a != b
    ensures Fifo.Run(2, [a, b]).queue == [a, b]
    ensures Fifo.Run(2, [a, b]).resident == {a, b}
    ensures Fifo.Run(2, [a, b]).faults == 0
  {
    FifoAfterA(a);
    FifoRunLast([a, b], [a], b);
    FifoAdmitsB(Fifo.Run(2, [a]), a, b);
  }

  /** The hit on A leaves the queue alone. */
  lemma FifoAfterABA(a: int, b: int)
    requires a != b
    ensures Fifo.Run(2, [a, b, a]).queue == [a, b]
    ensures Fifo.Run(2, [a, b, a]).resident == {a, b}
    ensures Fifo.Run(2, [a, b, a]).faults == 0
  {
    FifoAfterAB(a, b);
    FifoRunLast([a, b, a], [a, b], a);
  }

  /** From A then B queued, C drops A and is counted. */
  lemma FifoReplacesA(st: Fifo.State, a: int, b: int, c: int)
    requires a != b && b != c && a != c
    requires Fifo.Valid(2, st) && st.queue == [a, b] && st.resident == {a, b} && st.faults == 0
    ensures Fifo.Step(2, st, c).resident == {b, c}
    ensures Fifo.Step(2, st, c).faults == 1
  {
  }

  /** C evicts A, the first page queued, although A was just referenced. */
  lemma FifoOnABAC(a: int, b: int, c: int)
    requires a != b && b != c && a != c
    ensures Fifo.Run(2, [a, b, a, c]).resident == {b, c}
    ensures Fifo.Run(2, [a, b, a, c]).faults == 1
  {
    FifoAfterABA(a, b);
    FifoRunLast([a, b, a, c], [a, b, a], c);
    FifoReplacesA(Fifo.Run(2, [a, b, a]), a, b, c);
  }

  /** Replaying a trace is replaying all but its last reference, then one Clock step. */
  lemma ClockRunLast(t: seq<int>, p: seq<int>, d: int)
    requires t == p + [d]
    ensures Clock.Run(2, t) == Clock.Step(2, Clock.Run(2, p), d)
  {
    assert t[..|p|] == p;
  }

  lemma ClockAfterA(a: int)
    ensures Clock.Run(2, [a]) == Clock.State([a, 0], [true, false], 1, {a}, 0)
  {
    ClockRunLast([a], [], a);
  }

  /** With A in slot 0 and the pointer at 1, B goes into slot 1 with its bit set. */
  lemma ClockPlacesB(st: Clock.State, a: int, b: int)
    requires a != b
    requires Clock.Valid(2, st) && st == Clock.State([a, 0], [true, false], 1, {a}, 0)
    ensures Clock.Step(2, st, b) == Clock.State([a, b], [true, true], 2, {a, b}, 0)
  {
    assert st.slots[..1] == [a];
  }

  lemma ClockAfterAB(a: int, b: int)
    requires a != b
    ensures Clock.Run(2, [a, b]) == Clock.State([a, b], [true, true], 2, {a, b}, 0)
  {
    ClockAfterA(a);
    ClockRunLast([a, b], [a], b);
    ClockPlacesB(Clock.Run(2, [a]), a, b);
  }

  /** The hit on A sets A's bit, already set, and wraps the pointer from 2 to 0. */
  lemma ClockMarksA(st: Clock.State, a: int, b: int)
    requires a != b
    requires Clock.Valid(2, st) && st == Clock.State([a, b], [true, true], 2, {a, b}, 0)
    ensures Clock.Step(2, st, a) == Clock.State([a, b], [true, true], 0, {a, b}, 0)
  {
  }

  lemma ClockAfterABA(a: int, b: int)
    requires a != b
    ensures Clock.Run(2, [a, b, a]) == Clock.State([a, b], [true, true], 0, {a, b}, 0)
  {
    ClockAfterAB(a, b);
    ClockRunLast([a, b, a], [a, b], a);
    ClockMarksA(Clock.Run(2, [a, b]), a, b);
  }

  /** With both bits set the sweep clears both, comes back to slot 0 and replaces A. */
  lemma ClockSweeps(st: Clock.State, a: int, b: int, c: int)
    requires a != b && b != c && a != c
    requires Clock.Valid(2, st) && st == Clock.State([a, b], [true, true], 0, {a, b}, 0)
    ensures Clock.Step(2, st, c).slots == [c, b]
    ensures Clock.Step(2, st, c).useBits == [true, false]
    ensures Clock.Step(2, st, c).pointer == 1
    ensures Clock.Step(2, st, c).resident == {b, c}
    ensures Clock.Step(2, st, c).faults == 1
  {
    Clock.StepSweeps(2, st, c);
    Clock.VictimIsFirstClear(st.useBits, 0);
    assert Clock.FirstClear(st.useBits, 0, 0) == 2;
  }

  /** C evicts A, the first page placed, although A was just referenced, and is the only reference counted. */
  lemma ClockOnABAC(a: int, b: int, c: int)
    requires a != b && b != c && a != c
    ensures Clock.Run(2, [a, b, a, c]).slots == [c, b]
    ensures Clock.Run(2, [a, b, a, c]).useBits == [true, false]
    ensures Clock.Run(2, [a, b, a, c]).pointer == 1
    ensures Clock.Run(2, [a, b, a, c]).resident == {b, c}
    ensures Clock.Run(2, [a, b, a, c]).faults == 1
  {
    ClockAfterABA(a, b);
    ClockRunLast([a, b, a, c], [a, b, a], c);
    ClockSweeps(Clock.Run(2, [a, b, a]), a, b, c);
  }
}
