/**
 * First-In-First-Out replacement: a membership set and an insertion queue.
 * A hit changes nothing; a miss with room appends the page; a miss with the
 * set full drops the queue front, appends the page and counts one fault.
 */
module Fifo {
  import opened Pages

  /** The shadow set `s`, the queue `q` (oldest first) and the fault counter. */
  datatype State = State(resident: set<int>, queue: seq<int>, faults: nat)

  const Init: State := State({}, [], 0)

  /** The empty queue and set, with no faults, are a valid state whatever the working-set size. */
  lemma InitValid(wss: nat)
    ensures Valid(wss, Init)
    ensures |Init.resident| == 0 && Init.faults == 0
  {
    assert Elems([]) == {};
  }

  /** The queue and the set hold the same pages, once each, at most wss of them. */
  ghost predicate Valid(wss: nat, st: State)
  {
    && Distinct(st.queue)
    && Elems(st.queue) == st.resident
    && |st.queue| <= wss
  }

  /** A reference while the set still has room: the page joins the back of the queue, no fault. */
  function Admit(wss: nat, st: State, d: int): (r: State)
    requires Valid(wss, st) && |st.resident| < wss && d !in st.resident
    ensures Valid(wss, r)
    ensures r.resident == st.resident + {d} && |r.resident| == |st.resident| + 1
    ensures r.queue == st.queue + [d]
    ensures r.faults == st.faults
  {
    AppendFresh(st.queue, d);
    DistinctCard(st.queue + [d]);
    State(st.resident + {d}, st.queue + [d], st.faults)
  }

  /** A miss with the set full: the oldest insertion leaves, the page enters at the back, one fault. */
  function Replace(wss: nat, st: State, d: int): (r: State)
    requires wss >= 1 && Valid(wss, st) && |st.resident| >= wss && d !in st.resident
    ensures Valid(wss, r)
    ensures |st.queue| == wss && |r.queue| == wss && |r.resident| == wss
    ensures r.resident == st.resident - {st.queue[0]} + {d}
    ensures r.queue == st.queue[1..] + [d]
    ensures r.faults == st.faults + 1
  {
    DistinctCard(st.queue);
    var oldest := st.queue[0];
    DropFirst(st.queue);
    AppendFresh(st.queue[1..], d);
    DistinctCard(st.queue[1..] + [d]);
    State(st.resident - {oldest} + {d}, st.queue[1..] + [d], st.faults + 1)
  }

  /** One reference, with the branches in the order the loop body tests them. */
  function Step(wss: nat, st: State, d: int): (r: State)
    requires wss >= 1 && Valid(wss, st)
    ensures Valid(wss, r)
    ensures d in r.resident
    ensures d in st.resident ==> r == st
    ensures d !in st.resident ==> r.queue[|r.queue| - 1] == d
    ensures d !in st.resident && |st.resident| < wss ==> r.queue == st.queue + [d]
    ensures d !in st.resident && |st.resident| >= wss ==>
              |st.queue| >= 1 && r.queue == st.queue[1..] + [d]
              && r.resident == st.resident - {st.queue[0]} + {d}
    ensures |r.resident| == if d in st.resident then |st.resident| else Min(wss, |st.resident| + 1)
    ensures r.faults == if d !in st.resident && |st.resident| >= wss then st.faults + 1 else st.faults
  {
    DistinctCard(st.queue);
    if |st.resident| < wss && d !in st.resident then Admit(wss, st, d)
    else if d !in st.resident then Replace(wss, st, d)
    else st
  }

  /** The state after replaying the whole trace. */
  function Run(wss: nat, trace: seq<int>): (r: State)
    requires wss >= 1
    ensures Valid(wss, r)
    ensures r.faults <= |trace|
    ensures r.resident <= Elems(trace)
    decreases |trace|
  {
    if |trace| == 0 then Init
    else
      SnocElems(trace);
      Step(wss, Run(wss, trace[..|trace| - 1]), trace[|trace| - 1])
  }

  /** The simulator's result: the faults counted over the trace. */
  function Faults(wss: nat, data: seq<int>): (faults: nat)
    requires wss >= 1
    ensures faults <= |data|
    ensures faults == |MissedPages(wss, data)| - Min(wss, |MissedPages(wss, data)|)
    ensures faults + wss >= |Elems(data)|
    ensures |Elems(data)| <= wss ==> faults == 0
  {
    QueueHoldsLatestMisses(wss, data);
    MissesCoverPages(wss, data);
    if |Elems(data)| <= wss then FewPagesNoFaults(wss, data); Run(wss, data).faults
    else Run(wss, data).faults
  }

  /**
   * The pages of the references that were not resident when they were made,
   * in trace order: the page faults in the usual sense, cold ones included.
   */
  ghost function MissedPages(wss: nat, trace: seq<int>): seq<int>
    requires wss >= 1
    decreases |trace|
  {
    if |trace| == 0 then []
    else
      var prefix := trace[..|trace| - 1];
      var d := trace[|trace| - 1];
      MissedPages(wss, prefix) + (if d in Run(wss, prefix).resident then [] else [d])
  }

  /**
   * The queue is the latest min(wss, misses) missed pages, oldest first, so a
   * hit never protects a page; the counter is the number of misses beyond
   * the first wss.
   */
  lemma {:induction false} QueueHoldsLatestMisses(wss: nat, trace: seq<int>)
    requires wss >= 1
    ensures LatestMisses(wss, Run(wss, trace), MissedPages(wss, trace))
    decreases |trace|
  {
    if |trace| > 0 {
      var prefix := trace[..|trace| - 1];
      var d := trace[|trace| - 1];
      QueueHoldsLatestMisses(wss, prefix);
      StepKeepsLatestMisses(wss, Run(wss, prefix), MissedPages(wss, prefix), d);
    }
  }

  /** The queue is the last min(wss, |m|) pages of m and the counter is what lies before them. */
  ghost predicate LatestMisses(wss: nat, st: State, m: seq<int>)
  {
    && |st.queue| == Min(wss, |m|)
    && st.queue == m[|m| - |st.queue|..]
    && st.faults == |m| - |st.queue|
  }

  lemma StepKeepsLatestMisses(wss: nat, st: State, m: seq<int>, d: int)
    requires wss >= 1 && Valid(wss, st) && LatestMisses(wss, st, m)
    ensures LatestMisses(wss, Step(wss, st, d), m + (if d in st.resident then [] else [d]))
  {
    DistinctCard(st.queue);
    if d !in st.resident {
      if |st.resident| < wss {
        AdmitKeepsLatestMisses(wss, st, m, d);
      } else {
        ReplaceKeepsLatestMisses(wss, st, m, d);
      }
    }
  }

  lemma AdmitKeepsLatestMisses(wss: nat, st: State, m: seq<int>, d: int)
    requires Valid(wss, st) && LatestMisses(wss, st, m)
    requires |st.resident| < wss && d !in st.resident
    ensures LatestMisses(wss, Admit(wss, st, d), m + [d])
  {
    DistinctCard(st.queue);
    assert st.queue == m;
  }

  lemma ReplaceKeepsLatestMisses(wss: nat, st: State, m: seq<int>, d: int)
    requires wss >= 1 && Valid(wss, st) && LatestMisses(wss, st, m)
    requires |st.resident| >= wss && d !in st.resident
    ensures LatestMisses(wss, Replace(wss, st, d), m + [d])
  {
    var q := st.queue;
    DistinctCard(q);
    var m' := m + [d];
    var k := |m| - wss;
    assert q == m[k..];
    assert m'[k + 1..] == m[k + 1..] + [d];
    assert m[k + 1..] == q[1..];
    var r := Replace(wss, st, d);
    assert r.queue == q[1..] + [d];
    assert q[1..] + [d] == m'[k + 1..];
    assert k + 1 == |m'| - wss;
    assert |r.queue| == wss == Min(wss, |m'|);
    assert r.faults == |m'| - wss;
  }

  /** While the trace has at most wss distinct pages every one stays resident and nothing is counted. */
  lemma {:induction false} FewPagesNoFaults(wss: nat, trace: seq<int>)
    requires wss >= 1 && |Elems(trace)| <= wss
    ensures Run(wss, trace).resident == Elems(trace)
    ensures Run(wss, trace).faults == 0
    decreases |trace|
  {
    if |trace| > 0 {
      var prefix := trace[..|trace| - 1];
      PrefixElems(trace, |trace| - 1);
      SnocElems(trace);
      FewPagesNoFaults(wss, prefix);
      DistinctCard(Run(wss, prefix).queue);
    }
  }

  /** Every distinct page of the trace misses at least once, on its first reference. */
  lemma {:induction false} MissesCoverPages(wss: nat, trace: seq<int>)
    requires wss >= 1
    ensures |MissedPages(wss, trace)| >= |Elems(trace)|
    decreases |trace|
  {
    if |trace| > 0 {
      var prefix := trace[..|trace| - 1];
      SnocElems(trace);
      MissesCoverPages(wss, prefix);
    }
  }
}
