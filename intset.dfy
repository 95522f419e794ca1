/**
 * The integer set of intset.go: a Go map from int64 to bool whose keys are the
 * members. The map is the object's only field and the mutators update it in
 * place; `Contents` is the abstract set the map stands for.
 */
module Intsets {
  import opened Words

  class Intset {
    /** The field M of the Go struct: the keys are the members, the values are always true. */
    var m: map<int64, bool>
    ghost var Contents: set<int64>

    ghost predicate Valid()
      reads this
    {
      Contents == m.Keys
    }

    /** NewIntset: an empty set. */
    constructor ()
      ensures Valid() && Contents == {}
    {
      m := map[];
      Contents := {};
    }

    /** NewIntsetFromSlice: duplicates in the slice collapse into one member. */
    constructor FromSlice(xs: seq<int64>)
      ensures Valid() && Contents == Elements(xs)
      ensures Len() <= |xs|
    {
      m := map[];
      Contents := {};
      new;
      AddSlice(xs);
      ElementsCard(xs);
    }

    /** Number of members. */
    function Len(): (n: nat)
      reads this
      requires Valid()
      ensures n == |Contents|
    {
      assert |m| == |m.Keys|;
      |m|
    }

    /** Membership test. */
    function Contains(v: int64): (found: bool)
      reads this
      requires Valid()
      ensures found <==> v in Contents
    {
      v in m
    }

    /** Inserts i; the answer says whether i was new. */
    method Add(i: int64) returns (added: bool)
      requires Valid()
      modifies this
      ensures Valid()
      ensures added <==> i !in old(Contents)
      ensures Contents == old(Contents) + {i}
      ensures Len() == old(Len()) + (if added then 1 else 0)
    {
      added := i !in m;
      m := m[i := true];
      Contents := Contents + {i};
    }

    /** Inserts every member of other; other itself is left as it was. */
    method AddSet(other: Intset)
      requires Valid() && other.Valid()
      modifies this
      ensures Valid()
      ensures Contents == old(Contents) + old(other.Contents)
      ensures other != this ==> unchanged(other)
    {
      ghost var others := other.Contents;
      var rest := other.m.Keys;
      while rest != {}
        invariant Valid()
        invariant rest <= others
        invariant Contents == old(Contents) + (others - rest)
        invariant other != this ==> unchanged(other)
        decreases rest
      {
        var i :| i in rest;
        m := m[i := true];
        Contents := Contents + {i};
        rest := rest - {i};
      }
    }

    /** Inserts every element of a slice. */
    method AddSlice(xs: seq<int64>)
      requires Valid()
      modifies this
      ensures Valid()
      ensures Contents == old(Contents) + Elements(xs)
    {
      var k := 0;
      while k < |xs|
        invariant 0 <= k <= |xs|
        invariant Valid()
        invariant Contents == old(Contents) + Elements(xs[..k])
      {
        assert xs[..k + 1] == xs[..k] + [xs[k]];
        m := m[xs[k] := true];
        Contents := Contents + {xs[k]};
        k := k + 1;
      }
      assert xs[..k] == xs;
    }

    /** Removes v; the answer says whether v was a member. */
    method Remove(v: int64) returns (removed: bool)
      requires Valid()
      modifies this
      ensures Valid()
      ensures removed <==> v in old(Contents)
      ensures Contents == old(Contents) - {v}
      ensures Len() == old(Len()) - (if removed then 1 else 0)
    {
      removed := v in m;
      if removed {
        m := m - {v};
        Contents := Contents - {v};
      }
    }

    /** Enumerates the members once each, in the map's (unspecified) order. */
    method ToInt64Slice() returns (r: seq<int64>)
      requires Valid()
      ensures Distinct(r)
      ensures Elements(r) == Contents
      ensures |r| == Len()
    {
      r := [];
      var rest := m.Keys;
      while rest != {}
        invariant rest <= m.Keys
        invariant Distinct(r)
        invariant Elements(r) == m.Keys - rest
        invariant |r| + |rest| == |m.Keys|
        decreases rest
      {
        var v :| v in rest;
        assert Elements(r + [v]) == Elements(r) + {v};
        r := r + [v];
        rest := rest - {v};
      }
    }

    /** The same enumeration, each member converted to the platform int. */
    method ToIntSlice() returns (r: seq<int>)
      requires Valid()
      ensures Distinct(r)
      ensures forall v :: v in r <==> (-0x8000_0000_0000_0000 <= v < 0x8000_0000_0000_0000 && v as int64 in Contents)
      ensures |r| == Len()
    {
      r := [];
      var rest := m.Keys;
      while rest != {}
        invariant rest <= m.Keys
        invariant Distinct(r)
        invariant forall v :: v in r <==> (-0x8000_0000_0000_0000 <= v < 0x8000_0000_0000_0000 && v as int64 in m.Keys - rest)
        invariant |r| + |rest| == |m.Keys|
        decreases rest
      {
        var v :| v in rest;
        assert v as int !in r;
        r := r + [v as int];
        rest := rest - {v};
      }
    }

    /** A fresh set holding the members of both; neither input changes. */
    method Union(other: Intset) returns (r: Intset)
      requires Valid() && other.Valid()
      ensures fresh(r) && r.Valid()
      ensures r.Contents == Contents + other.Contents
    {
      r := new Intset();
      r.AddSet(this);
      r.AddSet(other);
    }

    /**
     * A fresh set holding the common members. The loop runs over the smaller
     * set and probes the larger one.
     */
    method Intersect(other: Intset) returns (r: Intset)
      requires Valid() && other.Valid()
      ensures fresh(r) && r.Valid()
      ensures r.Contents == Contents * other.Contents
    {
      if other.Len() > Len() {
        r := Probe(other);
      } else {
        r := other.Probe(this);
      }
    }

    /** The loop of Intersect: the members of this set that larger also holds. */
    method Probe(larger: Intset) returns (r: Intset)
      requires Valid() && larger.Valid()
      ensures fresh(r) && r.Valid()
      ensures r.Contents == Contents * larger.Contents
    {
      ghost var small, large := Contents, larger.Contents;
      r := new Intset();
      var rest := m.Keys;
      while rest != {}
        invariant fresh(r) && r.Valid()
        invariant rest <= small
        invariant r.Contents == (small - rest) * large
        decreases rest
      {
        var v :| v in rest;
        if larger.Contains(v) {
          var _ := r.Add(v);
        }
        IntersectStep(small, rest, large, v);
        rest := rest - {v};
      }
    }

    /** A fresh set holding the members of this set that other lacks. */
    method Difference(other: Intset) returns (r: Intset)
      requires Valid() && other.Valid()
      ensures fresh(r) && r.Valid()
      ensures r.Contents == Contents - other.Contents
    {
      ghost var mine, theirs := Contents, other.Contents;
      r := new Intset();
      var rest := m.Keys;
      while rest != {}
        invariant fresh(r) && r.Valid()
        invariant rest <= mine
        invariant r.Contents == (mine - rest) - theirs
        decreases rest
      {
        var v :| v in rest;
        if !other.Contains(v) {
          var _ := r.Add(v);
        }
        DifferenceStep(mine, rest, theirs, v);
        rest := rest - {v};
      }
    }

    /** Same members; sets of different sizes are told apart without a scan. */
    method Equal(other: Intset) returns (eq: bool)
      requires Valid() && other.Valid()
      ensures eq <==> Contents == other.Contents
      ensures Len() != other.Len() ==> !eq
    {
      if Len() != other.Len() {
        return false;
      }
      var rest := m.Keys;
      while rest != {}
        invariant rest <= Contents
        invariant Contents - rest <= other.Contents
        decreases rest
      {
        var v :| v in rest;
        if !other.Contains(v) {
          return false;
        }
        rest := rest - {v};
      }
      SubsetSameCard(Contents, other.Contents);
      return true;
    }
  }

  /** Scanning one more member v of this set for Difference. */
  lemma DifferenceStep(mine: set<int64>, rest: set<int64>, theirs: set<int64>, v: int64)
    requires v in rest && rest <= mine
    ensures (mine - (rest - {v})) - theirs == ((mine - rest) - theirs) + (if v in theirs then {} else {v})
  {
  }

  /** Scanning one more member v of the smaller set for Intersect. */
  lemma IntersectStep(small: set<int64>, rest: set<int64>, large: set<int64>, v: int64)
    requires v in rest && rest <= small
    ensures (small - (rest - {v})) * large == (small - rest) * large + (if v in large then {v} else {})
  {
  }

  /** Union in either order gives equal sets. */
  method UnionCommutes(a: Intset, b: Intset) returns (eq: bool)
    requires a.Valid() && b.Valid()
    ensures eq
  {
    var ab := a.Union(b);
    var ba := b.Union(a);
    eq := ab.Equal(ba);
  }

  /** Intersection in either order gives equal sets. */
  method IntersectCommutes(a: Intset, b: Intset) returns (eq: bool)
    requires a.Valid() && b.Valid()
    ensures eq
  {
    var ab := a.Intersect(b);
    var ba := b.Intersect(a);
    eq := ab.Equal(ba);
  }

  /** A set minus itself is empty. */
  method DifferenceWithSelf(a: Intset) returns (n: nat)
    requires a.Valid()
    ensures n == 0
  {
    var d := a.Difference(a);
    n := d.Len();
  }

  /** The union of a set with itself equals it. */
  method UnionIdempotent(a: Intset) returns (eq: bool)
    requires a.Valid()
    ensures eq
  {
    var aa := a.Union(a);
    eq := aa.Equal(a);
  }

  /** A set holding exactly the given values, built by Add as the tests do. */
  method Build(xs: seq<int64>) returns (s: Intset)
    ensures fresh(s) && s.Valid()
    ensures s.Contents == Elements(xs)
  {
    s := new Intset();
    var k := 0;
    while k < |xs|
      invariant 0 <= k <= |xs|
      invariant fresh(s) && s.Valid()
      invariant s.Contents == Elements(xs[..k])
    {
      assert Elements(xs[..k + 1]) == Elements(xs[..k]) + {xs[k]} by {
        assert xs[..k + 1] == xs[..k] + [xs[k]];
      }
      var _ := s.Add(xs[k]);
      k := k + 1;
    }
    assert xs[..k] == xs;
  }

  /** The element sets of the slices the tests build their sets from. */
  lemma TestOperands()
    ensures Elements<int64>([1, 2, 3, 4, 5, 6]) == {1, 2, 3, 4, 5, 6}
    ensures Elements<int64>([3, 4, 5, 42]) == {3, 4, 5, 42}
    ensures Elements<int64>([1, 2, 3]) == {1, 2, 3}
    ensures Elements<int64>([1, 2, 8]) == {1, 2, 8}
    ensures Elements<int64>([1]) == {1}
    ensures Elements<int64>([]) == {}
  {
    var a: seq<int64> := [1, 2, 3, 4, 5, 6];
    assert forall x :: x in a <==> x in {1, 2, 3, 4, 5, 6};
    var b: seq<int64> := [3, 4, 5, 42];
    assert forall x :: x in b <==> x in {3, 4, 5, 42};
  }

  /** Test_Union: {1, 2, 3} united with {3, 4, 5, 42} lists 1, 2, 3, 4, 5, 42. */
  method UnionExample() returns (r: seq<int64>)
    ensures Distinct(r) && Elements(r) == {1, 2, 3, 4, 5, 42}
  {
    TestOperands();
    var s := Build([1, 2, 3]);
    var s2 := Build([3, 4, 5, 42]);
    var u := s.Union(s2);
    r := u.ToInt64Slice();
  }

  /** Test_Intersect: {1, ..., 6} intersected with {3, 4, 5, 42} lists 3, 4, 5. */
  method IntersectExample() returns (r: seq<int64>)
    ensures Distinct(r) && Elements(r) == {3, 4, 5}
  {
    TestOperands();
    var s := Build([1, 2, 3, 4, 5, 6]);
    var s2 := Build([3, 4, 5, 42]);
    assert s.Contents * s2.Contents == {3, 4, 5};
    var i := s.Intersect(s2);
    r := i.ToInt64Slice();
  }

  /** Test_Difference: {1, ..., 6} minus {3, 4, 5, 42} lists 1, 2, 6. */
  method DifferenceExample() returns (r: seq<int64>)
    ensures Distinct(r) && Elements(r) == {1, 2, 6}
  {
    TestOperands();
    var s := Build([1, 2, 3, 4, 5, 6]);
    var s2 := Build([3, 4, 5, 42]);
    assert s.Contents - s2.Contents == {1, 2, 6};
    var d := s.Difference(s2);
    r := d.ToInt64Slice();
  }

  /** Test_Equal: {1, 2, 3} equals a set built from [1, 2, 3] and none built from [1, 2, 8], [1] or []. */
  method EqualExample() returns (same: bool, other: bool, shorter: bool, empty: bool)
    ensures same && !other && !shorter && !empty
  {
    TestOperands();
    var s := Build([1, 2, 3]);
    var t := new Intset.FromSlice([1, 2, 3]);
    same := s.Equal(t);
    t := new Intset.FromSlice([1, 2, 8]);
    other := s.Equal(t);
    t := new Intset.FromSlice([1]);
    shorter := s.Equal(t);
    t := new Intset.FromSlice([]);
    empty := s.Equal(t);
  }

  /** Test_AddDuplicates and Test_Remove: adding 1 twice reports new then old; removing 2 from {1, 2, 3} leaves 1, 3. */
  method AddRemoveExample() returns (first: bool, second: bool, r: seq<int64>)
    ensures first && !second
    ensures Distinct(r) && Elements(r) == {1, 3}
  {
    var s := new Intset();
    first := s.Add(1);
    second := s.Add(1);
    TestOperands();
    var t := Build([1, 2, 3]);
    var _ := t.Remove(2);
    r := t.ToInt64Slice();
  }

  /** Test_ToIntSlice: the ints listed for {1, 2, 3} sort to [1, 2, 3], so they are 1, 2, 3 once each. */
  method ToIntSliceExample() returns (r: seq<int>)
    ensures Distinct(r) && Elements(r) == {1, 2, 3}
  {
    var s := new Intset();
    var added := s.Add(1);
    added := s.Add(2);
    added := s.Add(3);
    r := s.ToIntSlice();
    assert forall v :: v in r <==> v in {1, 2, 3};
  }
}
