/**
 * Pages, traces and the sequence facts shared by the three page-replacement
 * simulators. A page is an integer address; a trace is the sequence of pages
 * referenced, in order.
 */
module Pages {

  /** The pages that occur in a sequence (a trace, a queue or a run of slots). */
  function Elems(s: seq<int>): set<int>
  {
    set x | x in s
  }

  /** No page occurs twice. */
  predicate Distinct(s: seq<int>)
  {
    forall i, j :: 0 <= i < j < |s| ==> s[i] != s[j]
  }

  function Min(a: nat, b: nat): nat
  {
    if a <= b then a else b
  }

  /** A sequence without repetitions has as many distinct pages as elements. */
  lemma {:induction false} DistinctCard(s: seq<int>)
    requires Distinct(s)
    ensures |Elems(s)| == |s|
  {
    if |s| > 0 {
      var p := s[..|s| - 1];
      var last := s[|s| - 1];
      assert Distinct(p);
      DistinctCard(p);
      assert s == p + [last];
      assert Elems(s) == Elems(p) + {last};
      assert last !in Elems(p);
    }
  }

  /** A page seen in a prefix of the trace is seen in the trace. */
  lemma PrefixElems(t: seq<int>, n: nat)
    requires n <= |t|
    ensures Elems(t[..n]) <= Elems(t)
    ensures |Elems(t[..n])| <= |Elems(t)|
  {
    assert forall x :: x in t[..n] ==> x in t;
    SubsetCard(Elems(t[..n]), Elems(t));
  }

  /** Extending a trace by one reference adds at most that page. */
  lemma SnocElems(t: seq<int>)
    requires |t| > 0
    ensures Elems(t) == Elems(t[..|t| - 1]) + {t[|t| - 1]}
  {
    assert t == t[..|t| - 1] + [t[|t| - 1]];
  }

  lemma SubsetCard(a: set<int>, b: set<int>)
    requires a <= b
    ensures |a| <= |b|
  {
    assert b == a + (b - a);
    assert a * (b - a) == {};
  }

  /** Appending a page that is not there keeps the pages distinct. */
  lemma AppendFresh(s: seq<int>, d: int)
    requires Distinct(s) && d !in Elems(s)
    ensures Distinct(s + [d])
    ensures Elems(s + [d]) == Elems(s) + {d}
  {
  }

  /** Overwriting one element with a page that is not there keeps the pages distinct. */
  lemma ReplaceFresh(s: seq<int>, k: nat, d: int)
    requires Distinct(s) && k < |s| && d !in Elems(s)
    ensures Distinct(s[k := d])
    ensures Elems(s[k := d]) == Elems(s) - {s[k]} + {d}
  {
    var r := s[k := d];
    forall x | x in Elems(s) - {s[k]} + {d}
      ensures x in Elems(r)
    {
      if x != d {
        var i :| 0 <= i < |s| && s[i] == x;
        assert r[i] == x;
      } else {
        assert r[k] == d;
      }
    }
  }

  /** Dropping the first element of a distinct sequence removes exactly that page. */
  lemma DropFirst(q: seq<int>)
    requires Distinct(q) && |q| > 0
    ensures Distinct(q[1..])
    ensures Elems(q[1..]) == Elems(q) - {q[0]}
  {
    assert q == [q[0]] + q[1..];
    forall x | x in Elems(q) - {q[0]}
      ensures x in Elems(q[1..])
    {
      var i :| 0 <= i < |q| && q[i] == x;
      assert q[1..][i - 1] == x;
    }
  }
}
