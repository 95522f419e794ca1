/**
 * The is-a closure that the two recursive common table expressions of
 * importer/snomed.go compute. An edge IsA(s, d) is a row of
 * snomed_is_a_relationships with source_id s and destination_id d: concept s
 * is a kind of concept d. The ancestors of c are the concepts reached from c by
 * following one or more edges forwards; the descendants of c are those that
 * reach c.
 */
module Closure {
  import opened Words

  datatype IsA = IsA(source: int64, destination: int64)

  /** The destinations of the edges leaving t: one step of the ancestor expression. */
  function Parents(E: set<IsA>, t: set<int64>): set<int64> {
    set e | e in E && e.source in t :: e.destination
  }

  function Sources(E: set<IsA>): set<int64> {
    set e | e in E :: e.source
  }

  function Destinations(E: set<IsA>): set<int64> {
    set e | e in E :: e.destination
  }

  /** The concept ids of the first query: SELECT source_id UNION SELECT destination_id. */
  function Concepts(E: set<IsA>): set<int64> {
    Sources(E) + Destinations(E)
  }

  /** The edges turned round: the descendant expression follows them. */
  function Reverse(E: set<IsA>): set<IsA> {
    set e | e in E :: IsA(e.destination, e.source)
  }

  lemma ParentsInDestinations(E: set<IsA>, t: set<int64>)
    ensures Parents(E, t) <= Destinations(E)
  {
  }

  /**
   * The fixpoint of a recursive UNION: keep adding the parents of what is
   * there until nothing new appears. Rows already present are not added again.
   */
  function Close(E: set<IsA>, t: set<int64>): (r: set<int64>)
    ensures t <= r
    ensures Parents(E, r) <= r
    decreases Destinations(E) - t
  {
    var p := Parents(E, t);
    if p <= t then t
    else
      ParentsInDestinations(E, t);
      assert exists x :: x in p && x !in t;
      Close(E, t + p)
  }

  /** Close gives the least superset of t that is closed under Parents. */
  lemma {:induction false} CloseLeast(E: set<IsA>, t: set<int64>, s: set<int64>)
    requires t <= s && Parents(E, s) <= s
    ensures Close(E, t) <= s
    decreases Destinations(E) - t
  {
    var p := Parents(E, t);
    if !(p <= t) {
      ParentsInDestinations(E, t);
      assert exists x :: x in p && x !in t;
      assert p <= Parents(E, s);
      CloseLeast(E, t + p, s);
    }
  }

  /** The rows of the ancestor expression for concept c. */
  function Ancestors(E: set<IsA>, c: int64): set<int64> {
    Close(E, Parents(E, {c}))
  }

  /** The rows of the descendant expression for concept c. */
  function Descendants(E: set<IsA>, c: int64): set<int64> {
    Close(Reverse(E), Parents(Reverse(E), {c}))
  }

  /** A walk of one or more edges: consecutive nodes are joined by an edge. */
  predicate Walk(E: set<IsA>, p: seq<int64>) {
    |p| >= 2 && forall i :: 0 <= i < |p| - 1 ==> IsA(p[i], p[i + 1]) in E
  }

  ghost predicate Reaches(E: set<IsA>, a: int64, b: int64) {
    exists p :: Walk(E, p) && p[0] == a && p[|p| - 1] == b
  }

  lemma WalkSnoc(E: set<IsA>, p: seq<int64>, x: int64)
    requires Walk(E, p) && IsA(p[|p| - 1], x) in E
    ensures Walk(E, p + [x])
  {
    var q := p + [x];
    forall i | 0 <= i < |q| - 1
      ensures IsA(q[i], q[i + 1]) in E
    {
      if i < |p| - 1 {
        assert q[i] == p[i] && q[i + 1] == p[i + 1];
      }
    }
  }

  /** Everything Close adds is reached from c, when everything it starts from is. */
  lemma {:induction false} CloseSound(E: set<IsA>, t: set<int64>, c: int64)
    requires forall x :: x in t ==> Reaches(E, c, x)
    ensures forall x :: x in Close(E, t) ==> Reaches(E, c, x)
    decreases Destinations(E) - t
  {
    var p := Parents(E, t);
    if !(p <= t) {
      forall x | x in p
        ensures Reaches(E, c, x)
      {
        var e :| e in E && e.source in t && e.destination == x;
        var w :| Walk(E, w) && w[0] == c && w[|w| - 1] == e.source;
        WalkSnoc(E, w, x);
        assert (w + [x])[0] == c;
      }
      ParentsInDestinations(E, t);
      assert exists x :: x in p && x !in t;
      CloseSound(E, t + p, c);
    }
  }

  /** Every node of a walk after the first lies in a Parents-closed set holding the walk's first step. */
  lemma {:induction false} WalkStaysIn(E: set<IsA>, p: seq<int64>, s: set<int64>)
    requires Walk(E, p)
    requires p[1] in s && Parents(E, s) <= s
    ensures p[|p| - 1] in s
    decreases |p|
  {
    if |p| > 2 {
      var q := p[..|p| - 1];
      assert Walk(E, q) by {
        forall i | 0 <= i < |q| - 1 ensures IsA(q[i], q[i + 1]) in E {
          assert q[i] == p[i] && q[i + 1] == p[i + 1];
        }
      }
      WalkStaysIn(E, q, s);
      var e := IsA(p[|p| - 2], p[|p| - 1]);
      assert e in E && e.source in s;
      assert p[|p| - 1] in Parents(E, s);
    }
  }

  /** The ancestors of c are exactly the nodes reached from c by one or more edges. */
  lemma AncestorsAreReachable(E: set<IsA>, c: int64, x: int64)
    ensures x in Ancestors(E, c) <==> Reaches(E, c, x)
  {
    var t := Parents(E, {c});
    forall y | y in t
      ensures Reaches(E, c, y)
    {
      var e :| e in E && e.source == c && e.destination == y;
      assert Walk(E, [c, y]);
    }
    CloseSound(E, t, c);
    if Reaches(E, c, x) {
      var w :| Walk(E, w) && w[0] == c && w[|w| - 1] == x;
      var e := IsA(w[0], w[1]);
      assert e in E;
      assert w[1] in t;
      WalkStaysIn(E, w, Ancestors(E, c));
    }
  }

  lemma ReverseWalk(E: set<IsA>, p: seq<int64>)
    requires Walk(Reverse(E), p)
    ensures Walk(E, Reversed(p))
  {
    var q := Reversed(p);
    forall i | 0 <= i < |q| - 1
      ensures IsA(q[i], q[i + 1]) in E
    {
      var j := |p| - 2 - i;
      assert IsA(p[j], p[j + 1]) in Reverse(E);
      var e :| e in E && IsA(e.destination, e.source) == IsA(p[j], p[j + 1]);
    }
  }

  lemma ForwardWalk(E: set<IsA>, p: seq<int64>)
    requires Walk(E, p)
    ensures Walk(Reverse(E), Reversed(p))
  {
    var q := Reversed(p);
    forall i | 0 <= i < |q| - 1
      ensures IsA(q[i], q[i + 1]) in Reverse(E)
    {
      var j := |p| - 2 - i;
      var e := IsA(p[j], p[j + 1]);
      assert e in E;
      assert IsA(e.destination, e.source) in Reverse(E);
    }
  }

  function Reversed(p: seq<int64>): (q: seq<int64>)
    ensures |q| == |p|
    ensures forall i :: 0 <= i < |p| ==> q[i] == p[|p| - 1 - i]
  {
    if p == [] then [] else Reversed(p[1..]) + [p[0]]
  }

  /** Walking the reversed edges from a to b is walking the edges from b to a. */
  lemma ReverseReaches(E: set<IsA>, a: int64, b: int64)
    ensures Reaches(Reverse(E), a, b) <==> Reaches(E, b, a)
  {
    if Reaches(Reverse(E), a, b) {
      var w :| Walk(Reverse(E), w) && w[0] == a && w[|w| - 1] == b;
      ReverseWalk(E, w);
      assert Reversed(w)[0] == b;
    }
    if Reaches(E, b, a) {
      var w :| Walk(E, w) && w[0] == b && w[|w| - 1] == a;
      ForwardWalk(E, w);
      assert Reversed(w)[0] == a;
    }
  }

  /** The descendants of c are exactly the nodes from which c is reached by one or more edges. */
  lemma DescendantsReachThere(E: set<IsA>, c: int64, x: int64)
    ensures x in Descendants(E, c) <==> Reaches(E, x, c)
  {
    AncestorsAreReachable(Reverse(E), c, x);
    ReverseReaches(E, c, x);
  }

  /** d is an ancestor of c exactly when c is a descendant of d. */
  lemma AncestorDescendantDual(E: set<IsA>, c: int64, d: int64)
    ensures d in Ancestors(E, c) <==> c in Descendants(E, d)
  {
    AncestorsAreReachable(E, c, d);
    DescendantsReachThere(E, d, c);
  }

  /** Every ancestor is a destination and every descendant a source of some edge. */
  lemma ClosuresWithinConcepts(E: set<IsA>, c: int64)
    ensures Ancestors(E, c) <= Destinations(E)
    ensures Descendants(E, c) <= Sources(E)
  {
    ParentsInDestinations(E, {c});
    CloseLeast(E, Parents(E, {c}), Destinations(E));
    ParentsInDestinations(Reverse(E), {c});
    assert Destinations(Reverse(E)) == Sources(E);
    CloseLeast(Reverse(E), Parents(Reverse(E), {c}), Sources(E));
  }

  /** The diamond 1 -> 2, 1 -> 3, 2 -> 4, 3 -> 4: concept 4 is reached twice but listed once. */
  const DiamondEdges: set<IsA> := {IsA(1, 2), IsA(1, 3), IsA(2, 4), IsA(3, 4)}

  lemma DiamondAncestors()
    ensures Ancestors(DiamondEdges, 1) == {2, 3, 4}
  {
    var E := DiamondEdges;
    var t0: set<int64> := {2, 3};
    var t1: set<int64> := {2, 3, 4};
    assert Parents(E, {1}) == t0 by {
      assert IsA(1, 2) in E && IsA(1, 3) in E;
    }
    assert Parents(E, t0) == {4} by {
      assert IsA(2, 4) in E;
    }
    assert Parents(E, t1) == {4} by {
      assert IsA(2, 4) in E;
    }
    assert Close(E, t1) == t1;
    assert Close(E, t0) == Close(E, t1);
  }

  lemma DiamondDescendants()
    ensures Descendants(DiamondEdges, 4) == {1, 2, 3}
  {
    var R := Reverse(DiamondEdges);
    assert R == {IsA(2, 1), IsA(3, 1), IsA(4, 2), IsA(4, 3)};
    var t0: set<int64> := {2, 3};
    var t1: set<int64> := {1, 2, 3};
    assert Parents(R, {4}) == t0 by {
      assert IsA(4, 2) in R && IsA(4, 3) in R;
    }
    assert Parents(R, t0) == {1} by {
      assert IsA(2, 1) in R;
    }
    assert Parents(R, t1) == {1} by {
      assert IsA(2, 1) in R;
    }
    assert Close(R, t1) == t1;
    assert Close(R, t0) == Close(R, t1);
  }
}
