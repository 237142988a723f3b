/**
 * Least-Recently-Used replacement: wss slots, each with a page and an age
 * (references since the page in it was last touched), a count of filled
 * slots and a shadow membership set. Every reference first ages every slot.
 * A hit resets the page's age; a miss with room fills the next slot; a miss
 * with the set full gives the page to every slot whose age is the maximum.
 */
module Lru {
  import opened Pages

  /**
   * The arrays `workingSet` and `time`, `initiationIndex` (slots [0, filled)
   * are in use), the shadow set `s` and the fault counter.
   */
  datatype State = State(slots: seq<int>, ages: seq<nat>, filled: nat, resident: set<int>, faults: nat)

  /** Both arrays zeroed, nothing resident, no faults: a valid state with no slot filled. */
  function Init(wss: nat): (r: State)
    ensures Valid(wss, r)
    ensures r.filled == 0 && r.resident == {} && r.faults == 0
    ensures forall j :: 0 <= j < wss ==> r.slots[j] == 0 && r.ages[j] == 0
  {
    var r := State(seq(wss, _ => 0), seq(wss, _ => 0), 0, {}, 0);
    assert r.slots[..0] == [];
    r
  }

  /**
   * The filled slots hold the resident pages, once each, and no two filled
   * slots have the same age.
   */
  ghost predicate Valid(wss: nat, st: State)
  {
    && |st.slots| == wss
    && |st.ages| == wss
    && st.filled <= wss
    && Distinct(st.slots[..st.filled])
    && Elems(st.slots[..st.filled]) == st.resident
    && |st.resident| == st.filled
    && (forall i, j :: 0 <= i < j < st.filled ==> st.ages[i] != st.ages[j])
  }

  /** The passage of one time unit: every slot, filled or not, ages by one. */
  function Tick(ages: seq<nat>): (r: seq<nat>)
    ensures |r| == |ages|
    ensures forall j :: 0 <= j < |ages| ==> r[j] == ages[j] + 1
  {
    seq(|ages|, j requires 0 <= j < |ages| => ages[j] + 1)
  }

  /** Slot k is strictly older than every other slot. */
  ghost predicate IsOldest(ages: seq<nat>, k: nat)
  {
    k < |ages| && forall i :: 0 <= i < |ages| && i != k ==> ages[i] < ages[k]
  }

  /** Ageing every slot by one keeps the oldest slot the oldest. */
  lemma TickKeepsOldest(ages: seq<nat>, k: nat)
    requires IsOldest(Tick(ages), k)
    ensures IsOldest(ages, k)
  {
    forall i | 0 <= i < |ages| && i != k
      ensures ages[i] < ages[k]
    {
      assert Tick(ages)[i] < Tick(ages)[k];
    }
  }

  /** The first scan of the eviction branch: the running maximum of ages[j..], starting from m. */
  function MaxFrom(ages: seq<nat>, j: nat, m: nat): (r: nat)
    requires j <= |ages|
    ensures m <= r
    ensures forall i :: j <= i < |ages| ==> ages[i] <= r
    ensures r == m || exists i :: j <= i < |ages| && ages[i] == r
    decreases |ages| - j
  {
    if j == |ages| then m
    else MaxFrom(ages, j + 1, if ages[j] > m then ages[j] else m)
  }

  /** Slot k gets page d with age 0: its old page leaves the set, d joins it, one fault. */
  function Overwrite(st: State, k: nat, d: int): (r: State)
    requires k < |st.slots| && k < |st.ages|
    ensures |r.slots| == |st.slots| && |r.ages| == |st.ages| && r.filled == st.filled
    ensures r.slots[k] == d && r.ages[k] == 0
    ensures forall i :: 0 <= i < |st.slots| && i != k ==> r.slots[i] == st.slots[i]
    ensures forall i :: 0 <= i < |st.ages| && i != k ==> r.ages[i] == st.ages[i]
    ensures r.resident == st.resident - {st.slots[k]} + {d} && r.faults == st.faults + 1
  {
    State(st.slots[k := d], st.ages[k := 0], st.filled, st.resident - {st.slots[k]} + {d}, st.faults + 1)
  }

  /** The number of slots from j on whose age is m. */
  function AgeCount(ages: seq<nat>, m: nat, j: nat): nat
    requires j <= |ages|
    decreases |ages| - j
  {
    if j == |ages| then 0 else (if ages[j] == m then 1 else 0) + AgeCount(ages, m, j + 1)
  }

  /** The second scan of the eviction branch: every slot from j on whose age equals m is overwritten. */
  function EvictFrom(st: State, d: int, m: nat, j: nat): (r: State)
    requires |st.slots| == |st.ages| && j <= |st.ages|
    ensures |r.slots| == |st.slots| && |r.ages| == |st.ages| && r.filled == st.filled
    decreases |st.ages| - j
  {
    if j == |st.ages| then st
    else if st.ages[j] == m then EvictFrom(Overwrite(st, j, d), d, m, j + 1)
    else EvictFrom(st, d, m, j + 1)
  }

  /**
   * The second scan gives page d and age 0 to exactly the slots from j on
   * whose age is m, leaves every other slot alone, and counts one fault per
   * slot it overwrites.
   */
  lemma {:induction false} EvictFromMatches(st: State, d: int, m: nat, j: nat)
    requires |st.slots| == |st.ages| && j <= |st.ages|
    ensures var r := EvictFrom(st, d, m, j);
            && (forall i :: 0 <= i < |st.slots| ==>
                  r.slots[i] == (if j <= i && st.ages[i] == m then d else st.slots[i]))
            && (forall i :: 0 <= i < |st.ages| ==>
                  r.ages[i] == (if j <= i && st.ages[i] == m then 0 else st.ages[i]))
            && r.faults == st.faults + AgeCount(st.ages, m, j)
    decreases |st.ages| - j
  {
    if j < |st.ages| {
      if st.ages[j] == m {
        var o := Overwrite(st, j, d);
        EvictFromMatches(o, d, m, j + 1);
        AgeCountFrom(st.ages, o.ages, m, j + 1);
      } else {
        EvictFromMatches(st, d, m, j + 1);
      }
    }
  }

  /** Two age sequences that agree from j on have the same count from j on. */
  lemma {:induction false} AgeCountFrom(a: seq<nat>, b: seq<nat>, m: nat, j: nat)
    requires j <= |a| == |b|
    requires forall i :: j <= i < |a| ==> a[i] == b[i]
    ensures AgeCount(a, m, j) == AgeCount(b, m, j)
    decreases |a| - j
  {
    if j < |a| {
      AgeCountFrom(a, b, m, j + 1);
    }
  }

  /** With no slot of age m left from j on, the second scan changes nothing. */
  lemma {:induction false} EvictFromUnmatched(st: State, d: int, m: nat, j: nat)
    requires |st.slots| == |st.ages| && j <= |st.ages|
    requires forall i :: j <= i < |st.ages| ==> st.ages[i] != m
    ensures EvictFrom(st, d, m, j) == st
    decreases |st.ages| - j
  {
    if j < |st.ages| {
      EvictFromUnmatched(st, d, m, j + 1);
    }
  }

  /**
   * When exactly one slot k from j on has the positive age m, the second scan
   * overwrites that slot alone and counts one fault.
   */
  lemma {:induction false} EvictFromSingle(st: State, d: int, m: nat, j: nat, k: nat)
    requires |st.slots| == |st.ages| && j <= k < |st.ages|
    requires st.ages[k] == m && m > 0
    requires forall i :: j <= i < |st.ages| && i != k ==> st.ages[i] != m
    ensures EvictFrom(st, d, m, j) == Overwrite(st, k, d)
    decreases |st.ages| - j
  {
    if j < k {
      EvictFromSingle(st, d, m, j + 1, k);
    } else {
      EvictFromUnmatched(Overwrite(st, k, d), d, m, k + 1);
    }
  }

  /** A slot of maximal age. */
  ghost function ArgMax(ages: seq<nat>): (k: nat)
    requires |ages| > 0
    ensures k < |ages|
    ensures forall i :: 0 <= i < |ages| ==> ages[i] <= ages[k]
  {
    if |ages| == 1 then 0
    else
      var k := ArgMax(ages[..|ages| - 1]);
      if ages[|ages| - 1] > ages[k] then |ages| - 1 else k
  }

  /**
   * With pairwise distinct positive ages the maximum is unique, so the
   * literal two-scan eviction replaces exactly the oldest slot.
   */
  lemma EvictsOnlyOldest(st: State, d: int)
    requires |st.slots| == |st.ages| > 0
    requires forall i, j :: 0 <= i < j < |st.ages| ==> st.ages[i] != st.ages[j]
    requires forall i :: 0 <= i < |st.ages| ==> st.ages[i] > 0
    ensures IsOldest(st.ages, ArgMax(st.ages))
    ensures EvictFrom(st, d, MaxFrom(st.ages, 0, 0), 0) == Overwrite(st, ArgMax(st.ages), d)
  {
    var k := ArgMax(st.ages);
    var m := MaxFrom(st.ages, 0, 0);
    assert m == st.ages[k];
    forall i | 0 <= i < |st.ages| && i != k
      ensures st.ages[i] < st.ages[k]
    {
      if i < k {
        assert st.ages[i] != st.ages[k];
      } else {
        assert st.ages[k] != st.ages[i];
      }
    }
    EvictFromSingle(st, d, m, 0, k);
  }

  /** Age 0 in slot n, after slots [0, n) with distinct positive ages, keeps slots [0, n] distinct. */
  lemma FreshAgeDistinct(ages: seq<nat>, n: nat, placed: seq<nat>)
    requires n < |ages| && placed == ages[n := 0]
    requires forall i, j :: 0 <= i < j < n ==> ages[i] != ages[j]
    requires forall i :: 0 <= i < n ==> ages[i] > 0
    ensures forall i, j :: 0 <= i < j < n + 1 ==> placed[i] != placed[j]
  {
  }

  /** Miss with room: the page goes into the next free slot with age 0; no fault. */
  function Place(wss: nat, st: State, d: int): (r: State)
    requires Valid(wss, st) && st.filled < wss && d !in st.resident
    requires forall i :: 0 <= i < st.filled ==> st.ages[i] > 0
    ensures Valid(wss, r)
    ensures r.filled == st.filled + 1 && r.resident == st.resident + {d} && |r.resident| == |st.resident| + 1
    ensures r.slots == st.slots[st.filled := d] && r.ages == st.ages[st.filled := 0]
    ensures r.faults == st.faults
  {
    var r := State(st.slots[st.filled := d], st.ages[st.filled := 0], st.filled + 1, st.resident + {d}, st.faults);
    PlaceKeepsValid(wss, st, d, r);
    r
  }

  /** Filling the next free slot with a fresh page at age 0 keeps the state valid. */
  lemma PlaceKeepsValid(wss: nat, st: State, d: int, r: State)
    requires Valid(wss, st) && st.filled < wss && d !in st.resident
    requires forall i :: 0 <= i < st.filled ==> st.ages[i] > 0
    requires r == State(st.slots[st.filled := d], st.ages[st.filled := 0], st.filled + 1, st.resident + {d}, st.faults)
    ensures Valid(wss, r)
  {
    var n := st.filled;
    assert r.slots[..n + 1] == st.slots[..n] + [d];
    AppendFresh(st.slots[..n], d);
    FreshAgeDistinct(st.ages, n, r.ages);
  }

  /**
   * Miss with the set full, after the ages were advanced: the two literal
   * scans replace the unique oldest slot and count exactly one fault.
   */
  function Evict(wss: nat, st: State, d: int): (r: State)
    requires wss >= 1 && Valid(wss, st) && st.filled == wss && d !in st.resident
    requires forall i :: 0 <= i < wss ==> st.ages[i] > 0
    ensures Valid(wss, r)
    ensures r.filled == wss && |r.resident| == wss
    ensures IsOldest(st.ages, ArgMax(st.ages))
    ensures r.slots == st.slots[ArgMax(st.ages) := d] && r.ages == st.ages[ArgMax(st.ages) := 0]
    ensures r.resident == st.resident - {st.slots[ArgMax(st.ages)]} + {d}
    ensures r.faults == st.faults + 1
  {
    EvictsOnlyOldest(st, d);
    OverwriteKeepsValid(wss, st, ArgMax(st.ages), d);
    EvictFrom(st, d, MaxFrom(st.ages, 0, 0), 0)
  }

  /** In a full set, giving a fresh page and age 0 to one slot of positive age keeps the state valid. */
  lemma OverwriteKeepsValid(wss: nat, st: State, k: nat, d: int)
    requires Valid(wss, st) && st.filled == wss && d !in st.resident && k < wss
    requires forall i :: 0 <= i < wss ==> st.ages[i] > 0
    ensures Valid(wss, Overwrite(st, k, d)) && |Overwrite(st, k, d).resident| == wss
  {
    assert st.slots[..wss] == st.slots;
    ReplaceFresh(st.slots, k, d);
    assert st.slots[k := d][..wss] == st.slots[k := d];
    DistinctCard(st.slots[k := d]);
  }

  /** The hit loop: every slot holding d, filled or not, gets age 0. */
  function Touch(wss: nat, st: State, d: int): (r: State)
    requires Valid(wss, st) && d in st.resident
    requires forall i :: 0 <= i < st.filled ==> st.ages[i] > 0
    ensures Valid(wss, r)
    ensures r.slots == st.slots && r.filled == st.filled && r.resident == st.resident
    ensures forall j :: 0 <= j < wss ==> r.ages[j] == if st.slots[j] == d then 0 else st.ages[j]
    ensures r.faults == st.faults
  {
    var ages := seq(wss, j requires 0 <= j < wss => if st.slots[j] == d then 0 else st.ages[j]);
    assert forall i, j :: 0 <= i < j < st.filled ==> st.slots[..st.filled][i] != st.slots[..st.filled][j];
    st.(ages := ages)
  }

  /** Ageing keeps the state valid and leaves every slot at age 1 or more. */
  lemma TickKeepsValid(wss: nat, st: State)
    requires Valid(wss, st)
    ensures Valid(wss, st.(ages := Tick(st.ages)))
    ensures forall i :: 0 <= i < wss ==> Tick(st.ages)[i] > 0
  {
  }

  /** One reference: every age advances, then the branches in the order the loop body tests them. */
  function Step(wss: nat, st: State, d: int): (r: State)
    requires wss >= 1 && Valid(wss, st)
    ensures Valid(wss, r)
    ensures d in r.resident
    ensures |r.resident| == if d in st.resident then |st.resident| else Min(wss, |st.resident| + 1)
    ensures d in st.resident ==> r.slots == st.slots && r.resident == st.resident
    ensures d !in st.resident && |st.resident| < wss ==>
              r.slots == st.slots[st.filled := d] && r.resident == st.resident + {d}
    ensures d !in st.resident && |st.resident| >= wss ==>
              exists k: nat :: IsOldest(st.ages, k) && r.slots == st.slots[k := d]
                               && r.resident == st.resident - {st.slots[k]} + {d}
    ensures r.faults == if d !in st.resident && |st.resident| >= wss then st.faults + 1 else st.faults
  {
    var aged := st.(ages := Tick(st.ages));
    TickKeepsValid(wss, st);
    if |st.resident| < wss && d !in st.resident then Place(wss, aged, d)
    else if d !in st.resident then
      var r := Evict(wss, aged, d);
      TickKeepsOldest(st.ages, ArgMax(aged.ages));
      r
    else Touch(wss, aged, d)
  }

  /**
   * From before to after, the filled slot holding d has age 0 and every other
   * filled slot was already filled and keeps its page and age.
   */
  ghost predicate Refreshed(before: State, after: State, d: int)
    requires |before.slots| == |before.ages| == |after.slots| == |after.ages|
    requires after.filled <= |after.slots|
  {
    && (forall j :: 0 <= j < after.filled && after.slots[j] == d ==> after.ages[j] == 0)
    && (forall j :: 0 <= j < after.filled && after.slots[j] != d ==>
          j < before.filled && after.slots[j] == before.slots[j] && after.ages[j] == before.ages[j])
  }

  lemma PlaceRefreshes(wss: nat, st: State, d: int)
    requires Valid(wss, st) && st.filled < wss && d !in st.resident
    requires forall i :: 0 <= i < st.filled ==> st.ages[i] > 0
    ensures Refreshed(st, Place(wss, st, d), d)
  {
    assert forall j :: 0 <= j < st.filled ==> st.slots[..st.filled][j] == st.slots[j];
  }

  lemma EvictRefreshes(wss: nat, st: State, d: int)
    requires wss >= 1 && Valid(wss, st) && st.filled == wss && d !in st.resident
    requires forall i :: 0 <= i < wss ==> st.ages[i] > 0
    ensures Refreshed(st, Evict(wss, st, d), d)
  {
    var r := Evict(wss, st, d);
    var k: nat :| IsOldest(st.ages, k) && r.slots == st.slots[k := d] && r.ages == st.ages[k := 0];
    forall j | 0 <= j < wss && j != k
      ensures r.slots[j] != d && r.ages[j] == st.ages[j]
    {
      assert st.slots[..st.filled][j] in st.resident;
    }
  }

  lemma TouchRefreshes(wss: nat, st: State, d: int)
    requires Valid(wss, st) && d in st.resident
    requires forall i :: 0 <= i < st.filled ==> st.ages[i] > 0
    ensures Refreshed(st, Touch(wss, st, d), d)
  {
  }

  /**
   * After a step the filled slot holding d has age 0 and every other filled
   * slot keeps its page and is one unit older.
   */
  lemma StepAges(wss: nat, st: State, d: int)
    requires wss >= 1 && Valid(wss, st)
    ensures var r := Step(wss, st, d);
            && (forall j :: 0 <= j < r.filled && r.slots[j] == d ==> r.ages[j] == 0)
            && (forall j :: 0 <= j < r.filled && r.slots[j] != d ==>
                  j < st.filled && r.slots[j] == st.slots[j] && r.ages[j] == st.ages[j] + 1)
  {
    var aged := st.(ages := Tick(st.ages));
    TickKeepsValid(wss, st);
    if |st.resident| < wss && d !in st.resident {
      PlaceRefreshes(wss, aged, d);
    } else if d !in st.resident {
      EvictRefreshes(wss, aged, d);
    } else {
      TouchRefreshes(wss, aged, d);
    }
  }

  /** The state after replaying the whole trace. */
  function Run(wss: nat, trace: seq<int>): (r: State)
    requires wss >= 1
    ensures Valid(wss, r)
    ensures r.faults <= |trace|
    ensures r.resident <= Elems(trace)
    ensures forall j :: 0 <= j < r.filled ==> r.ages[j] < |trace|
    decreases |trace|
  {
    if |trace| == 0 then Init(wss)
    else
      SnocElems(trace);
      StepAges(wss, Run(wss, trace[..|trace| - 1]), trace[|trace| - 1]);
      Step(wss, Run(wss, trace[..|trace| - 1]), trace[|trace| - 1])
  }

  /** The simulator's result: the faults counted over the trace. */
  function Faults(wss: nat, data: seq<int>): (faults: nat)
    requires wss >= 1
    ensures faults <= |data|
    ensures faults == Misses(wss, data) - Min(wss, Misses(wss, data))
    ensures faults + wss >= |Elems(data)|
    ensures |Elems(data)| <= wss ==> faults == 0
  {
    FaultsAreLateMisses(wss, data);
    MissesCoverPages(wss, data);
    if |Elems(data)| <= wss then FewPagesNoFaults(wss, data); Run(wss, data).faults
    else Run(wss, data).faults
  }

  /**
   * The number of references that were not resident when they were made:
   * the page faults in the usual sense, cold ones included.
   */
  ghost function Misses(wss: nat, trace: seq<int>): nat
    requires wss >= 1
    decreases |trace|
  {
    if |trace| == 0 then 0
    else
      var prefix := trace[..|trace| - 1];
      Misses(wss, prefix) + (if trace[|trace| - 1] in Run(wss, prefix).resident then 0 else 1)
  }

  /**
   * The set fills with the first wss misses and then stays full; the counter
   * is the number of misses beyond those first wss.
   */
  lemma {:induction false} FaultsAreLateMisses(wss: nat, trace: seq<int>)
    requires wss >= 1
    ensures |Run(wss, trace).resident| == Min(wss, Misses(wss, trace))
    ensures Run(wss, trace).faults == Misses(wss, trace) - |Run(wss, trace).resident|
    decreases |trace|
  {
    if |trace| > 0 {
      FaultsAreLateMisses(wss, trace[..|trace| - 1]);
    }
  }

  /** While the trace has at most wss distinct pages every one stays resident and nothing is counted. */
  lemma {:induction false} FewPagesNoFaults(wss: nat, trace: seq<int>)
    requires wss >= 1 && |Elems(trace)| <= wss
    ensures Run(wss, trace).resident == Elems(trace)
    ensures Run(wss, trace).faults == 0
    decreases |trace|
  {
    if |trace| > 0 {
      var prefix := trace[..|trace| - 1];
      PrefixElems(trace, |trace| - 1);
      SnocElems(trace);
      FewPagesNoFaults(wss, prefix);
    }
  }

  /** Every distinct page of the trace misses at least once, on its first reference. */
  lemma {:induction false} MissesCoverPages(wss: nat, trace: seq<int>)
    requires wss >= 1
    ensures Misses(wss, trace) >= |Elems(trace)|
    decreases |trace|
  {
    if |trace| > 0 {
      SnocElems(trace);
      MissesCoverPages(wss, trace[..|trace| - 1]);
    }
  }

  /** The position of the last reference to x in t, or -1 when t never references x. */
  function LastUse(t: seq<int>, x: int): (p: int)
    ensures -1 <= p < |t|
    ensures p >= 0 ==> t[p] == x
    ensures forall q :: p < q < |t| ==> t[q] != x
    decreases |t|
  {
    if |t| == 0 then -1
    else if t[|t| - 1] == x then |t| - 1
    else LastUse(t[..|t| - 1], x)
  }

  /** Each filled slot's age counts the references of t made since its page was last referenced. */
  ghost predicate AgesMatch(st: State, t: seq<int>)
    requires st.filled <= |st.slots| && st.filled <= |st.ages|
  {
    forall j :: 0 <= j < st.filled ==> LastUse(t, st.slots[j]) == |t| - 1 - st.ages[j]
  }

  lemma StepKeepsAgesMatch(wss: nat, st: State, t: seq<int>, d: int)
    requires wss >= 1 && Valid(wss, st) && AgesMatch(st, t)
    ensures AgesMatch(Step(wss, st, d), t + [d])
  {
    var r := Step(wss, st, d);
    StepAges(wss, st, d);
    var t' := t + [d];
    assert t'[..|t|] == t;
    forall j | 0 <= j < r.filled
      ensures LastUse(t', r.slots[j]) == |t'| - 1 - r.ages[j]
    {
      if r.slots[j] != d {
        assert LastUse(t', r.slots[j]) == LastUse(t, r.slots[j]);
      }
    }
  }

  /** The age of a filled slot is the number of references since its page was last referenced. */
  lemma {:induction false} AgesAreRecency(wss: nat, trace: seq<int>)
    requires wss >= 1
    ensures AgesMatch(Run(wss, trace), trace)
    decreases |trace|
  {
    if |trace| > 0 {
      var prefix := trace[..|trace| - 1];
      var d := trace[|trace| - 1];
      assert prefix + [d] == trace;
      RunLast(wss, trace, prefix, d);
      AgesAreRecency(wss, prefix);
      StepKeepsAgesMatch(wss, Run(wss, prefix), prefix, d);
    }
  }

  /** Replaying a trace is replaying all but its last reference, then one step. */
  lemma RunLast(wss: nat, t: seq<int>, p: seq<int>, d: int)
    requires wss >= 1 && t == p + [d]
    ensures Run(wss, t) == Step(wss, Run(wss, p), d)
  {
    assert t[..|p|] == p;
  }

  /**
   * A miss with the set full evicts exactly one page, and it is the resident
   * page whose last reference lies furthest back.
   */
  lemma EvictsLeastRecentlyUsed(wss: nat, trace: seq<int>, d: int)
    requires wss >= 1
    requires d !in Run(wss, trace).resident && |Run(wss, trace).resident| == wss
    ensures exists v :: v in Run(wss, trace).resident
              && Run(wss, trace + [d]).resident == Run(wss, trace).resident - {v} + {d}
              && forall u :: u in Run(wss, trace).resident && u != v ==> LastUse(trace, v) < LastUse(trace, u)
  {
    assert (trace + [d])[..|trace|] == trace;
    AgesAreRecency(wss, trace);
    StepEvictsLeastRecent(wss, Run(wss, trace), trace, d);
  }

  lemma StepEvictsLeastRecent(wss: nat, st: State, t: seq<int>, d: int)
    requires wss >= 1 && Valid(wss, st) && AgesMatch(st, t)
    requires d !in st.resident && |st.resident| == wss
    ensures exists v :: v in st.resident
              && Step(wss, st, d).resident == st.resident - {v} + {d}
              && forall u :: u in st.resident && u != v ==> LastUse(t, v) < LastUse(t, u)
  {
    var r := Step(wss, st, d);
    var k: nat :| IsOldest(st.ages, k) && r.slots == st.slots[k := d]
                  && r.resident == st.resident - {st.slots[k]} + {d};
    OldestIsLeastRecent(wss, st, t, k);
  }

  /** In a full set whose ages match t, the page in the oldest slot is the resident page referenced least recently. */
  lemma OldestIsLeastRecent(wss: nat, st: State, t: seq<int>, k: nat)
    requires Valid(wss, st) && AgesMatch(st, t) && st.filled == wss && IsOldest(st.ages, k)
    ensures st.slots[k] in st.resident
    ensures forall u :: u in st.resident && u != st.slots[k] ==> LastUse(t, st.slots[k]) < LastUse(t, u)
  {
    var v := st.slots[k];
    assert st.slots[..st.filled] == st.slots;
    assert st.slots[..st.filled][k] == v;
    forall u | u in st.resident && u != v
      ensures LastUse(t, v) < LastUse(t, u)
    {
      var j :| 0 <= j < st.filled && st.slots[..st.filled][j] == u;
      assert st.ages[j] < st.ages[k];
    }
  }

}
