/**
 * Clock (second-chance) replacement: wss slots in a ring, a use bit per slot,
 * a frame pointer and a shadow membership set. A miss with room fills the
 * slot under the pointer; a hit sets the page's use bit; a miss with the set
 * full sweeps from the pointer, clearing set use bits, and replaces the first
 * slot whose bit is clear.
 */
module Clock {
  import opened Pages

  /** The arrays `workingSet` and `useBit`, `framePointer`, the shadow set `s` and the fault counter. */
  datatype State = State(slots: seq<int>, useBits: seq<bool>, pointer: nat, resident: set<int>, faults: nat)

  /** Both arrays cleared, pointer at slot 0, nothing resident, no faults: a valid state with no slot filled. */
  function Init(wss: nat): (r: State)
    ensures Valid(wss, r)
    ensures r.pointer == 0 && r.resident == {} && r.faults == 0
    ensures forall j :: 0 <= j < wss ==> r.slots[j] == 0 && !r.useBits[j]
  {
    var r := State(seq(wss, _ => 0), seq(wss, _ => false), 0, {}, 0);
    assert r.slots[..0] == [];
    r
  }

  /**
   * The first |resident| slots hold the resident pages, once each; the
   * pointer stays within [0, wss] and, until the set is full, points at the
   * next free slot.
   */
  ghost predicate Valid(wss: nat, st: State)
  {
    && |st.slots| == wss
    && |st.useBits| == wss
    && st.pointer <= wss
    && |st.resident| <= wss
    && Distinct(st.slots[..|st.resident|])
    && Elems(st.slots[..|st.resident|]) == st.resident
    && (|st.resident| < wss ==> st.pointer == |st.resident|)
  }

  /** The wrap at the top of the loop body and of the sweep: a pointer past the last slot goes back to 0. */
  function Wrap(p: nat, n: nat): (r: nat)
    ensures n > 0 ==> r < n
    ensures p < n ==> r == p
    ensures p >= n ==> r == 0
  {
    if p >= n then 0 else p
  }

  /** The slot k places after s, going round a ring of n slots. */
  function Pos(s: nat, k: nat, n: nat): nat
    requires s < n && k <= n
  {
    if s + k < n then s + k else s + k - n
  }

  /** How many places after s slot i lies, going round a ring of n slots. */
  function Offset(s: nat, i: nat, n: nat): nat
    requires s < n && i < n
  {
    if i >= s then i - s else i + n - s
  }

  /** The number of set use bits. */
  function CountSet(bits: seq<bool>): nat
  {
    if |bits| == 0 then 0 else (if bits[0] then 1 else 0) + CountSet(bits[1..])
  }

  /** Clearing a set use bit lowers the count by one. */
  lemma {:induction false} ClearLowersCount(bits: seq<bool>, p: nat)
    requires p < |bits| && bits[p]
    ensures CountSet(bits[p := false]) == CountSet(bits) - 1
  {
    if p > 0 {
      assert bits[p := false][1..] == bits[1..][p - 1 := false];
      ClearLowersCount(bits[1..], p - 1);
    } else {
      assert bits[p := false][1..] == bits[1..];
    }
  }

  /**
   * The offset, from k on, of the first slot after s whose use bit is clear;
   * n when every bit from offset k to the end of the round is set.
   */
  function FirstClear(bits: seq<bool>, s: nat, k: nat): (r: nat)
    requires s < |bits| && k <= |bits|
    ensures k <= r <= |bits|
    ensures forall j :: k <= j < r ==> bits[Pos(s, j, |bits|)]
    ensures r < |bits| ==> !bits[Pos(s, r, |bits|)]
    decreases |bits| - k
  {
    if k == |bits| then k
    else if !bits[Pos(s, k, |bits|)] then k
    else FirstClear(bits, s, k + 1)
  }

  /**
   * Clearing the set bit at s and starting one slot later finds the same
   * clear slot one place sooner, or s itself at the end of the round.
   */
  lemma {:induction false} FirstClearShift(bits: seq<bool>, s: nat, j: nat)
    requires s < |bits| && bits[s] && j < |bits|
    ensures FirstClear(bits[s := false], Wrap(s + 1, |bits|), j) == FirstClear(bits, s, j + 1) - 1
    decreases |bits| - j
  {
    var n := |bits|;
    var s' := Wrap(s + 1, n);
    assert Pos(s', j, n) == Pos(s, j + 1, n);
    if j + 1 < n {
      assert Pos(s, j + 1, n) != s;
      if bits[Pos(s, j + 1, n)] {
        FirstClearShift(bits, s, j + 1);
      }
    }
  }

  /** When no clear bit is found in a whole round from s, every bit is set. */
  lemma AllSetWhenNoneClear(bits: seq<bool>, s: nat)
    requires s < |bits|
    ensures FirstClear(bits, s, 0) == |bits| ==> forall i :: 0 <= i < |bits| ==> bits[i]
  {
    if FirstClear(bits, s, 0) == |bits| {
      forall i | 0 <= i < |bits|
        ensures bits[i]
      {
        assert Pos(s, Offset(s, i, |bits|), |bits|) == i;
      }
    }
  }

  /** The slot a sweep from s replaces: the first slot from s whose use bit is clear, or s when every bit is set. */
  ghost function Victim(bits: seq<bool>, s: nat): nat
    requires s < |bits|
  {
    Pos(s, FirstClear(bits, s, 0), |bits|)
  }

  /** Slot i is passed over by a sweep from s: it lies strictly before the victim (every slot, when every bit is set). */
  ghost predicate Passed(bits: seq<bool>, s: nat, i: nat)
    requires s < |bits| && i < |bits|
  {
    Offset(s, i, |bits|) < FirstClear(bits, s, 0)
  }

  /**
   * Clearing the set bit at s and sweeping on from the next slot passes the
   * same slots as sweeping from s, apart from s itself, which the sweep from s
   * passes first.
   */
  lemma PassedShift(bits: seq<bool>, s: nat)
    requires s < |bits| && bits[s]
    ensures Passed(bits, s, s)
    ensures forall i :: 0 <= i < |bits| && i != s ==>
              Passed(bits[s := false], Wrap(s + 1, |bits|), i) == Passed(bits, s, i)
  {
    var n := |bits|;
    var s' := Wrap(s + 1, n);
    FirstClearShift(bits, s, 0);
    assert FirstClear(bits, s, 0) == FirstClear(bits, s, 1);
    forall i | 0 <= i < n && i != s
      ensures Passed(bits[s := false], s', i) == Passed(bits, s, i)
    {
      assert Offset(s', i, n) == Offset(s, i, n) - 1;
    }
  }

  /** What the sweep leaves behind, and how many times its loop body ran. */
  datatype Sweep = Sweep(slots: seq<int>, useBits: seq<bool>, pointer: nat, victim: nat, rounds: nat)

  /**
   * The sweep loop of a miss with the set full: wrap the pointer; a clear bit
   * gets the page, its bit is set and the loop ends; a set bit is cleared;
   * either way the pointer advances.
   */
  function SweepFrom(slots: seq<int>, bits: seq<bool>, fp: nat, d: int): (r: Sweep)
    requires |slots| == |bits| >= 1 && fp <= |bits|
    ensures r.victim == Victim(bits, Wrap(fp, |bits|)) < |bits|
    ensures !bits[r.victim] || forall i :: 0 <= i < |bits| ==> bits[i]
    ensures r.rounds == FirstClear(bits, Wrap(fp, |bits|), 0) + 1 <= |bits| + 1
    ensures r.pointer == r.victim + 1
    ensures r.slots == slots[r.victim := d]
    ensures |r.useBits| == |bits|
    ensures forall i :: 0 <= i < |bits| ==>
              r.useBits[i] == (i == r.victim || (!Passed(bits, Wrap(fp, |bits|), i) && bits[i]))
    decreases CountSet(bits)
  {
    var n := |bits|;
    var p := Wrap(fp, n);
    if !bits[p] then
      Sweep(slots[p := d], bits[p := true], p + 1, p, 1)
    else
      ClearLowersCount(bits, p);
      FirstClearShift(bits, p, 0);
      var bits' := bits[p := false];
      var p' := Wrap(p + 1, n);
      var k := FirstClear(bits, p, 0);
      assert k == FirstClear(bits, p, 1);
      assert FirstClear(bits', p', 0) == k - 1;
      assert Pos(p', k - 1, n) == Pos(p, k, n);
      var r := SweepFrom(slots, bits', p + 1, d);
      assert r.victim == p ==> k == n;
      AllSetWhenNoneClear(bits, p);
      PassedShift(bits, p);
      r.(rounds := r.rounds + 1)
  }

  /** Miss with room: the page goes into the slot under the pointer with its use bit set; no fault. */
  function Place(wss: nat, st: State, d: int): (r: State)
    requires Valid(wss, st) && |st.resident| < wss && d !in st.resident
    ensures Valid(wss, r)
    ensures r.slots == st.slots[st.pointer := d] && r.useBits == st.useBits[st.pointer := true]
    ensures r.pointer == st.pointer + 1
    ensures r.resident == st.resident + {d} && |r.resident| == |st.resident| + 1
    ensures r.faults == st.faults
  {
    var n := |st.resident|;
    var slots := st.slots[n := d];
    assert slots[..n + 1] == st.slots[..n] + [d];
    AppendFresh(st.slots[..n], d);
    DistinctCard(st.slots[..n] + [d]);
    State(slots, st.useBits[n := true], n + 1, st.resident + {d}, st.faults)
  }

  /** The hit loop: every slot holding d, filled or not, gets its use bit set. */
  function Mark(wss: nat, st: State, d: int): (r: State)
    requires Valid(wss, st) && d in st.resident
    ensures Valid(wss, r)
    ensures r.slots == st.slots && r.resident == st.resident && r.pointer == st.pointer
    ensures forall j :: 0 <= j < wss ==> r.useBits[j] == (st.slots[j] == d || st.useBits[j])
    ensures r.faults == st.faults
  {
    st.(useBits := seq(wss, j requires 0 <= j < wss => st.slots[j] == d || st.useBits[j]))
  }

  /** Miss with the set full: the sweep picks the slot, the page replaces its old one, one fault. */
  function Replace(wss: nat, st: State, d: int): (r: State)
    requires wss >= 1 && Valid(wss, st) && |st.resident| == wss && d !in st.resident && st.pointer < wss
    ensures Valid(wss, r)
    ensures |r.resident| == wss
    ensures var v := Victim(st.useBits, st.pointer);
            && r.slots == st.slots[v := d]
            && r.pointer == v + 1
            && r.resident == st.resident - {st.slots[v]} + {d}
            && forall i :: 0 <= i < wss ==>
                 r.useBits[i] == (i == v || (!Passed(st.useBits, st.pointer, i) && st.useBits[i]))
    ensures r.faults == st.faults + 1
  {
    var sw := SweepFrom(st.slots, st.useBits, st.pointer, d);
    assert st.slots[..wss] == st.slots;
    ReplaceFresh(st.slots, sw.victim, d);
    assert st.slots[sw.victim := d][..wss] == st.slots[sw.victim := d];
    DistinctCard(st.slots[sw.victim := d]);
    State(sw.slots, sw.useBits, sw.pointer, st.resident - {st.slots[sw.victim]} + {d}, st.faults + 1)
  }

  /** Wrapping the pointer keeps the state valid, leaves a pointer short of wss alone and brings it below wss. */
  lemma WrapKeepsValid(wss: nat, st: State)
    requires wss >= 1 && Valid(wss, st)
    ensures Valid(wss, st.(pointer := Wrap(st.pointer, wss)))
    ensures Wrap(st.pointer, wss) < wss
    ensures |st.resident| < wss ==> Wrap(st.pointer, wss) == st.pointer
  {
  }

  /**
   * One reference: wrap the pointer, then the branches in the order the loop
   * body tests them.
   */
  function Step(wss: nat, st: State, d: int): (r: State)
    requires wss >= 1 && Valid(wss, st)
    ensures Valid(wss, r)
    ensures d in r.resident
    ensures |r.resident| == if d in st.resident then |st.resident| else Min(wss, |st.resident| + 1)
    ensures d !in st.resident && |st.resident| < wss ==>
              st.pointer == |st.resident| && r.slots == st.slots[st.pointer := d]
              && r.useBits == st.useBits[st.pointer := true] && r.pointer == st.pointer + 1
    ensures d in st.resident ==>
              r.slots == st.slots && r.resident == st.resident && r.pointer == Wrap(st.pointer, wss)
              && forall j :: 0 <= j < wss ==> r.useBits[j] == (st.slots[j] == d || st.useBits[j])
    ensures r.faults == if d !in st.resident && |st.resident| >= wss then st.faults + 1 else st.faults
  {
    var wrapped := st.(pointer := Wrap(st.pointer, wss));
    WrapKeepsValid(wss, st);
    if |st.resident| < wss && d !in st.resident then Place(wss, wrapped, d)
    else if d in st.resident then Mark(wss, wrapped, d)
    else Replace(wss, wrapped, d)
  }

  /**
   * The victim of a sweep from s is the first slot, going round from s, whose
   * use bit is clear, or s itself when every bit is set; every slot the sweep
   * passes over had its bit set.
   */
  lemma VictimIsFirstClear(bits: seq<bool>, s: nat)
    requires s < |bits|
    ensures Victim(bits, s) < |bits|
    ensures !bits[Victim(bits, s)] || (Victim(bits, s) == s && forall i :: 0 <= i < |bits| ==> bits[i])
    ensures forall i :: 0 <= i < |bits| && Passed(bits, s, i) ==> bits[i]
  {
    AllSetWhenNoneClear(bits, s);
    forall i | 0 <= i < |bits| && Passed(bits, s, i)
      ensures bits[i]
    {
      assert Pos(s, Offset(s, i, |bits|), |bits|) == i;
    }
  }

  /**
   * A miss with the set full replaces the first slot from the (wrapped)
   * pointer whose use bit is clear, clears the bits it passes, sets the
   * replaced slot's bit and leaves the pointer one past it.
   */
  lemma StepSweeps(wss: nat, st: State, d: int)
    requires wss >= 1 && Valid(wss, st) && d !in st.resident && |st.resident| >= wss
    ensures var r := Step(wss, st, d);
            var s := Wrap(st.pointer, wss);
            var v := Victim(st.useBits, s);
            && v < wss
            && (!st.useBits[v] || forall i :: 0 <= i < wss ==> st.useBits[i])
            && (forall i :: 0 <= i < wss && i != v && Passed(st.useBits, s, i) ==> st.useBits[i] && !r.useBits[i])
            && (forall i :: 0 <= i < wss && i != v && !Passed(st.useBits, s, i) ==> r.useBits[i] == st.useBits[i])
            && r.slots == st.slots[v := d]
            && r.useBits[v]
            && r.pointer == v + 1
            && r.resident == st.resident - {st.slots[v]} + {d}
  {
    var s := Wrap(st.pointer, wss);
    assert Step(wss, st, d) == Replace(wss, st.(pointer := s), d);
    VictimIsFirstClear(st.useBits, s);
  }

  /** The state after replaying the whole trace. */
  function Run(wss: nat, trace: seq<int>): (r: State)
    requires wss >= 1
    ensures Valid(wss, r)
    ensures r.faults <= |trace|
    ensures r.resident <= Elems(trace)
    decreases |trace|
  {
    if |trace| == 0 then Init(wss)
    else
      SnocElems(trace);
      Step(wss, Run(wss, trace[..|trace| - 1]), trace[|trace| - 1])
  }

  /** The simulator's result: the faults counted over the trace. */
  function Faults(wss: nat, data: seq<int>): (faults: nat)
    requires wss >= 1
    ensures faults <= |data|
    ensures faults == Misses(wss, data) - Min(wss, Misses(wss, data))
    ensures faults + wss >= |Elems(data)|
    ensures |Elems(data)| <= wss ==> faults == 0
  {
    FaultsAreLateMisses(wss, data);
    MissesCoverPages(wss, data);
    if |Elems(data)| <= wss then FewPagesNoFaults(wss, data); Run(wss, data).faults
    else Run(wss, data).faults
  }

  /**
   * The number of references that were not resident when they were made:
   * the page faults in the usual sense, cold ones included.
   */
  ghost function Misses(wss: nat, trace: seq<int>): nat
    requires wss >= 1
    decreases |trace|
  {
    if |trace| == 0 then 0
    else
      var prefix := trace[..|trace| - 1];
      Misses(wss, prefix) + (if trace[|trace| - 1] in Run(wss, prefix).resident then 0 else 1)
  }

  /**
   * The set fills with the first wss misses and then stays full; the counter
   * is the number of misses beyond those first wss.
   */
  lemma {:induction false} FaultsAreLateMisses(wss: nat, trace: seq<int>)
    requires wss >= 1
    ensures |Run(wss, trace).resident| == Min(wss, Misses(wss, trace))
    ensures Run(wss, trace).faults == Misses(wss, trace) - |Run(wss, trace).resident|
    decreases |trace|
  {
    if |trace| > 0 {
      FaultsAreLateMisses(wss, trace[..|trace| - 1]);
    }
  }

  /** While the trace has at most wss distinct pages every one stays resident and nothing is counted. */
  lemma {:induction false} FewPagesNoFaults(wss: nat, trace: seq<int>)
    requires wss >= 1 && |Elems(trace)| <= wss
    ensures Run(wss, trace).resident == Elems(trace)
    ensures Run(wss, trace).faults == 0
    decreases |trace|
  {
    if |trace| > 0 {
      var prefix := trace[..|trace| - 1];
      PrefixElems(trace, |trace| - 1);
      SnocElems(trace);
      FewPagesNoFaults(wss, prefix);
    }
  }

  /** Every distinct page of the trace misses at least once, on its first reference. */
  lemma {:induction false} MissesCoverPages(wss: nat, trace: seq<int>)
    requires wss >= 1
    ensures Misses(wss, trace) >= |Elems(trace)|
    decreases |trace|
  {
    if |trace| > 0 {
      SnocElems(trace);
      MissesCoverPages(wss, trace[..|trace| - 1]);
    }
  }
}
