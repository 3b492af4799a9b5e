/** The first-occurrence level table `uniqueBins = [...new Set(q)]`
    (script.js, line 72): a JavaScript Set iterates in insertion order, and
    adding a value it already holds does not move it. */
module LevelTable {

  ghost predicate NoDuplicates(u: seq<int>)
  {
    forall i, j :: 0 <= i < j < |u| ==> u[i] != u[j]
  }

  /** The distinct values of `q` in order of first occurrence. */
  function FirstOccurrences(q: seq<int>): (u: seq<int>)
    ensures NoDuplicates(u)
    ensures forall x :: x in u <==> x in q
    ensures |u| <= |q|
    ensures |q| > 0 ==> |u| > 0 && u[0] == q[0]
  {
    if |q| == 0 then []
    else
      var u := FirstOccurrences(q[..|q| - 1]);
      var x := q[|q| - 1];
      assert forall y :: y in q <==> y in q[..|q| - 1] || y == x by {
        assert q == q[..|q| - 1] + [x];
      }
      if x in u then u else u + [x]
  }

  /** The index of the first occurrence of `x` in `q`. */
  function FirstIndex(q: seq<int>, x: int): (i: nat)
    requires x in q
    ensures i < |q| && q[i] == x
    ensures forall j :: 0 <= j < i ==> q[j] != x
  {
    if q[0] == x then 0 else 1 + FirstIndex(q[1..], x)
  }

  /** Appending to `q` does not move the first occurrence of a value `q`
      already holds. */
  lemma {:induction false} FirstIndexSnoc(q: seq<int>, y: int, x: int)
    requires x in q
    ensures x in q + [y] && FirstIndex(q + [y], x) == FirstIndex(q, x)
  {
    var i := FirstIndex(q, x);
    var k := FirstIndex(q + [y], x);
    assert (q + [y])[i] == x;
    assert q[k] == x || k == |q|;
  }

  /** Every entry of `u` occurs in `q`, and the entries appear in the order
      of their first occurrence in `q`. */
  ghost predicate OrderedByFirstIndex(q: seq<int>, u: seq<int>)
  {
    && (forall i :: 0 <= i < |u| ==> u[i] in q)
    && (forall i, j :: 0 <= i < j < |u| ==> FirstIndex(q, u[i]) < FirstIndex(q, u[j]))
  }

  /** The table lists values in the order of their first occurrence in `q`. */
  lemma {:induction false} FirstOccurrenceOrder(q: seq<int>)
    ensures OrderedByFirstIndex(q, FirstOccurrences(q))
  {
    if |q| > 0 {
      FirstOccurrenceOrder(q[..|q| - 1]);
      FirstOccurrenceOrderStep(q);
    }
  }

  lemma {:induction false} FirstOccurrenceOrderStep(q: seq<int>)
    requires |q| > 0
    requires OrderedByFirstIndex(q[..|q| - 1], FirstOccurrences(q[..|q| - 1]))
    ensures OrderedByFirstIndex(q, FirstOccurrences(q))
  {
    var u := FirstOccurrences(q);
    forall i, j | 0 <= i < j < |u|
      ensures FirstIndex(q, u[i]) < FirstIndex(q, u[j])
    {
      FirstOccurrenceOrderPair(q, i, j);
    }
  }

  lemma {:induction false} FirstOccurrenceOrderPair(q: seq<int>, i: nat, j: nat)
    requires |q| > 0
    requires OrderedByFirstIndex(q[..|q| - 1], FirstOccurrences(q[..|q| - 1]))
    requires i < j < |FirstOccurrences(q)|
    ensures FirstIndex(q, FirstOccurrences(q)[i]) < FirstIndex(q, FirstOccurrences(q)[j])
  {
    var p := q[..|q| - 1];
    var x := q[|q| - 1];
    assert q == p + [x];
    var up := FirstOccurrences(p);
    var u := FirstOccurrences(q);
    assert u[i] == up[i] && up[i] in p;
    FirstIndexSnoc(p, x, u[i]);
    if j < |up| {
      assert u[j] == up[j] && up[j] in p;
      FirstIndexSnoc(p, x, u[j]);
      assert FirstIndex(p, up[i]) < FirstIndex(p, up[j]);
    } else {
      assert u[j] == x && x !in p;
      assert FirstIndex(q, x) == |p| by {
        assert q[|p|] == x;
        assert forall k :: 0 <= k < |p| ==> q[k] == p[k];
      }
    }
  }

  /** The scan `[...new Set(q)]`: a Set of the values seen so far, and the
      list of values in the order they first entered it. */
  method UniqueBins(q: seq<int>) returns (u: seq<int>)
    ensures u == FirstOccurrences(q)
    ensures forall i, j :: 0 <= i < j < |u| ==> u[i] != u[j]
    ensures forall x :: x in u <==> x in q
  {
    u := [];
    var seen: set<int> := {};
    var i := 0;
    while i < |q|
      invariant 0 <= i <= |q|
      invariant u == FirstOccurrences(q[..i])
      invariant forall x :: x in seen <==> x in u
    {
      assert q[..i + 1][..i] == q[..i];
      if q[i] !in seen {
        seen := seen + {q[i]};
        u := u + [q[i]];
      }
      i := i + 1;
    }
    assert q[..|q|] == q;
  }

}
