/**
 * The compiler from a ValueSet's compose section (include and exclude entries,
 * each scoped to one code system) to per-system predicate groups, as in
 * expand.go. The record types are declared from their use there and in
 * expand_test.go.
 */
module Expand {
  import opened Wrappers
  import opened Words

  datatype VsComposeIncludeFilter = VsComposeIncludeFilter(Property: string, Op: string, Value: string)

  datatype VsComposeIncludeConcept = VsComposeIncludeConcept(Code: string)

  /** One compose entry; a nil Filter or Concept slice is None. */
  datatype VsComposeInclude = VsComposeInclude(
    System: string,
    Filter: Option<seq<VsComposeIncludeFilter>>,
    Concept: Option<seq<VsComposeIncludeConcept>>)

  datatype VsCompose = VsCompose(Include: seq<VsComposeInclude>, Exclude: seq<VsComposeInclude>)

  datatype ValueSet = ValueSet(
    Id: string, ResourceType: string, Identifier: string, Name: string,
    Publisher: string, Description: string,
    Compose: Option<VsCompose>)

  /** An atomic test; Concepts stays nil (None) except in the "in" predicate. */
  datatype NsPredicate = NsPredicate(
    Op: string, Value: string, Property: string,
    Concepts: Option<seq<VsComposeIncludeConcept>>)

  /** Include and exclude groups of one code system; a group is AND-ed, groups are OR-ed. */
  datatype NsFilter = NsFilter(Include: seq<seq<NsPredicate>>, Exclude: seq<seq<NsPredicate>>)

  /** The two passes: composeIncludeFilters and composeExcludeFilters. */
  datatype FilterSide = IncludeFilters | ExcludeFilters

  function VsFilterToNsPredicate(f: VsComposeIncludeFilter): NsPredicate {
    NsPredicate(f.Op, f.Value, f.Property, None)
  }

  function VsConceptsToNsPredicate(cs: seq<VsComposeIncludeConcept>): NsPredicate {
    NsPredicate("in", "", "concept", Some(cs))
  }

  /**
   * strings.TrimRight(u, "/"): drops every trailing '/'. The result is the
   * longest prefix of u that does not end in '/'.
   */
  function NormalizeNsUrl(u: string): (r: string)
    ensures |r| <= |u| && r == u[..|r|]
    ensures r == [] || r[|r| - 1] != '/'
    ensures forall i :: |r| <= i < |u| ==> u[i] == '/'
    decreases |u|
  {
    if |u| > 0 && u[|u| - 1] == '/' then NormalizeNsUrl(u[..|u| - 1]) else u
  }

  /** Normalizing twice is normalizing once. */
  lemma NormalizeIdempotent(u: string)
    ensures NormalizeNsUrl(NormalizeNsUrl(u)) == NormalizeNsUrl(u)
  {
  }

  /** The three facts of NormalizeNsUrl's contract single out its result. */
  lemma NormalizeUnique(u: string, s: string)
    requires |s| <= |u| && s == u[..|s|]
    requires s == [] || s[|s| - 1] != '/'
    requires forall i :: |s| <= i < |u| ==> u[i] == '/'
    ensures s == NormalizeNsUrl(u)
  {
  }

  /** System URLs that differ only in trailing slashes share one key. */
  lemma TrailingSlashesMerge(u: string, k: nat)
    ensures NormalizeNsUrl(u + seq(k, _ => '/')) == NormalizeNsUrl(u)
  {
    var v := u + seq(k, _ => '/');
    NormalizeUnique(v, NormalizeNsUrl(u));
  }

  /** One predicate per filter, in filter order. */
  function FilterPredicates(fs: seq<VsComposeIncludeFilter>): seq<NsPredicate>
    decreases |fs|
  {
    if fs == [] then [] else FilterPredicates(fs[..|fs| - 1]) + [VsFilterToNsPredicate(fs[|fs| - 1])]
  }

  /** Whether a compose entry yields a group at all: a Filter or a Concept slice is present. */
  predicate HasGroup(e: VsComposeInclude) {
    e.Filter.Some? || e.Concept.Some?
  }

  /** The group built from one compose entry: its filters, then its concepts as one "in" test. */
  function Group(e: VsComposeInclude): seq<NsPredicate> {
    (if e.Filter.Some? then FilterPredicates(e.Filter.value) else [])
    + (if e.Concept.Some? then [VsConceptsToNsPredicate(e.Concept.value)] else [])
  }

  /** The shape of a group, predicate by predicate. */
  lemma {:induction false} GroupShape(e: VsComposeInclude)
    ensures var fs := if e.Filter.Some? then e.Filter.value else [];
      && |Group(e)| == |fs| + (if e.Concept.Some? then 1 else 0)
      && (forall j :: 0 <= j < |fs| ==>
            Group(e)[j] == NsPredicate(fs[j].Op, fs[j].Value, fs[j].Property, None))
      && (e.Concept.Some? ==>
            Group(e)[|fs|] == NsPredicate("in", "", "concept", Some(e.Concept.value)))
  {
    if e.Filter.Some? {
      FilterPredicatesAt(e.Filter.value);
    }
  }

  lemma {:induction false} FilterPredicatesAt(fs: seq<VsComposeIncludeFilter>)
    ensures |FilterPredicates(fs)| == |fs|
    ensures forall j :: 0 <= j < |fs| ==> FilterPredicates(fs)[j] == VsFilterToNsPredicate(fs[j])
    decreases |fs|
  {
    if fs != [] {
      FilterPredicatesAt(fs[..|fs| - 1]);
    }
  }

  /** The keys the entries of one pass create. */
  function Systems(es: seq<VsComposeInclude>): set<string> {
    set e | e in es :: NormalizeNsUrl(e.System)
  }

  /** The groups that the entries for system k contribute, in encounter order. */
  function GroupsFor(es: seq<VsComposeInclude>, k: string): seq<seq<NsPredicate>>
    decreases |es|
  {
    if es == [] then []
    else
      var e := es[|es| - 1];
      GroupsFor(es[..|es| - 1], k) + (if NormalizeNsUrl(e.System) == k && HasGroup(e) then [Group(e)] else [])
  }

  /** The filter stored under k, or the fresh empty one that the loop makes for a new key. */
  function Lookup(m: map<string, NsFilter>, k: string): NsFilter {
    if k in m then m[k] else NsFilter([], [])
  }

  /** The filter f is the filter b after the groups gs were appended on side ft. */
  predicate Appended(f: NsFilter, b: NsFilter, gs: seq<seq<NsPredicate>>, ft: FilterSide) {
    && f.Include == b.Include + (if ft == IncludeFilters then gs else [])
    && f.Exclude == b.Exclude + (if ft == ExcludeFilters then gs else [])
  }

  /** What one pass has done to the map after the entries es. */
  ghost predicate PassDone(r: map<string, NsFilter>, before: map<string, NsFilter>, es: seq<VsComposeInclude>, ft: FilterSide) {
    && r.Keys == before.Keys + Systems(es)
    && forall k :: k in r ==> Appended(r[k], Lookup(before, k), GroupsFor(es, k), ft)
  }

  /** The filter that handling entry i stores under its key. */
  function Handle(f: NsFilter, i: VsComposeInclude, ft: FilterSide): NsFilter {
    if !HasGroup(i) then f
    else if ft == IncludeFilters then f.(Include := f.Include + [Group(i)])
    else f.(Exclude := f.Exclude + [Group(i)])
  }

  lemma HandleAppends(f: NsFilter, b: NsFilter, es: seq<VsComposeInclude>, ft: FilterSide, i: VsComposeInclude, k: string)
    requires Appended(f, b, GroupsFor(es, k), ft)
    requires NormalizeNsUrl(i.System) == k
    ensures Appended(Handle(f, i, ft), b, GroupsFor(es + [i], k), ft)
  {
    GroupsForSnoc(es, i, k);
  }

  lemma OtherKeyUnaffected(f: NsFilter, b: NsFilter, es: seq<VsComposeInclude>, ft: FilterSide, i: VsComposeInclude, k: string)
    requires Appended(f, b, GroupsFor(es, k), ft)
    requires NormalizeNsUrl(i.System) != k
    ensures Appended(f, b, GroupsFor(es + [i], k), ft)
  {
    GroupsForSnoc(es, i, k);
  }

  /** One more entry adds its normalized system to the keys. */
  lemma SystemsSnoc(es: seq<VsComposeInclude>, i: VsComposeInclude)
    ensures Systems(es + [i]) == Systems(es) + {NormalizeNsUrl(i.System)}
  {
    var es' := es + [i];
    forall e | e in es' ensures e in es || e == i { }
    forall e | e in es ensures e in es' { }
  }

  /** Handling entry i keeps the filter of one key k in step with the entries handled so far. */
  lemma PassStepKey(r: map<string, NsFilter>, before: map<string, NsFilter>, es: seq<VsComposeInclude>,
                    ft: FilterSide, i: VsComposeInclude, k: string)
    requires PassDone(r, before, es, ft)
    requires k in r || k == NormalizeNsUrl(i.System)
    ensures var key := NormalizeNsUrl(i.System);
      Appended(r[key := Handle(Lookup(r, key), i, ft)][k], Lookup(before, k), GroupsFor(es + [i], k), ft)
  {
    var key := NormalizeNsUrl(i.System);
    if k == key {
      if key !in r {
        GroupsForAbsent(es, key);
        assert Appended(Lookup(r, key), Lookup(before, key), GroupsFor(es, key), ft);
      }
      HandleAppends(Lookup(r, key), Lookup(before, key), es, ft, i, key);
    } else {
      OtherKeyUnaffected(r[k], Lookup(before, k), es, ft, i, k);
    }
  }

  /** Handling one more entry i keeps PassDone. */
  lemma PassStep(r: map<string, NsFilter>, before: map<string, NsFilter>, es: seq<VsComposeInclude>,
                 ft: FilterSide, i: VsComposeInclude)
    requires PassDone(r, before, es, ft)
    ensures var key := NormalizeNsUrl(i.System);
      PassDone(r[key := Handle(Lookup(r, key), i, ft)], before, es + [i], ft)
  {
    var key := NormalizeNsUrl(i.System);
    var r' := r[key := Handle(Lookup(r, key), i, ft)];
    SystemsSnoc(es, i);
    forall k | k in r'
      ensures Appended(r'[k], Lookup(before, k), GroupsFor(es + [i], k), ft)
    {
      PassStepKey(r, before, es, ft, i, k);
    }
  }

  lemma GroupsForSnoc(es: seq<VsComposeInclude>, i: VsComposeInclude, k: string)
    ensures GroupsFor(es + [i], k)
         == GroupsFor(es, k) + (if NormalizeNsUrl(i.System) == k && HasGroup(i) then [Group(i)] else [])
  {
    var es' := es + [i];
    assert es'[..|es'| - 1] == es;
  }

  /** Handling entry compose[n] after the entries before it keeps PassDone. */
  lemma PassAdvance(r: map<string, NsFilter>, before: map<string, NsFilter>, compose: seq<VsComposeInclude>,
                    n: nat, ft: FilterSide)
    requires n < |compose|
    requires PassDone(r, before, compose[..n], ft)
    ensures var key := NormalizeNsUrl(compose[n].System);
      PassDone(r[key := Handle(Lookup(r, key), compose[n], ft)], before, compose[..n + 1], ft)
  {
    PassStep(r, before, compose[..n], ft, compose[n]);
    PrefixSnoc(compose, n);
  }

  /** The predicates of one compose entry (the inner loops of composeFiltersToNsFilters). */
  method BuildGroup(i: VsComposeInclude) returns (preds: seq<NsPredicate>)
    ensures preds == Group(i)
  {
    preds := [];
    if i.Filter.Some? {
      var fs := i.Filter.value;
      var j := 0;
      while j < |fs|
        invariant 0 <= j <= |fs|
        invariant preds == FilterPredicates(fs[..j])
      {
        assert fs[..j + 1][..j] == fs[..j];
        preds := preds + [VsFilterToNsPredicate(fs[j])];
        j := j + 1;
      }
      assert fs[..j] == fs;
    }
    if i.Concept.Some? {
      preds := preds + [VsConceptsToNsPredicate(i.Concept.value)];
    }
  }

  /** The body of the entry loop after the lookup: the entry's group, if it has one, joins side ft. */
  method AddGroup(nsFilter: NsFilter, i: VsComposeInclude, ft: FilterSide) returns (f: NsFilter)
    ensures f == Handle(nsFilter, i, ft)
  {
    f := nsFilter;
    if i.Filter.Some? || i.Concept.Some? {
      var preds := BuildGroup(i);
      if ft == IncludeFilters {
        f := f.(Include := f.Include + [preds]);
      } else {
        f := f.(Exclude := f.Exclude + [preds]);
      }
    }
  }

  /**
   * One pass over compose entries (composeFiltersToNsFilters). Every entry's
   * normalized system becomes a key, and each entry with filters or concepts
   * appends its group to the list of that key on the side of this pass; the
   * other side is left as it was.
   */
  method ComposeFiltersToNsFilters(nsFilters: map<string, NsFilter>, compose: seq<VsComposeInclude>, ft: FilterSide)
    returns (r: map<string, NsFilter>)
    ensures r.Keys == nsFilters.Keys + Systems(compose)
    ensures forall k :: k in r ==> Appended(r[k], Lookup(nsFilters, k), GroupsFor(compose, k), ft)
  {
    r := nsFilters;
    var n := 0;
    assert Systems(compose[..0]) == {};
    while n < |compose|
      invariant 0 <= n <= |compose|
      invariant PassDone(r, nsFilters, compose[..n], ft)
    {
      var i := compose[n];
      var systemUrl := NormalizeNsUrl(i.System);
      var nsFilter := if systemUrl in r then r[systemUrl] else NsFilter([], []);
      nsFilter := AddGroup(nsFilter, i, ft);
      PassAdvance(r, nsFilters, compose, n, ft);
      r := r[systemUrl := nsFilter];
      n := n + 1;
    }
    assert compose[..n] == compose;
  }

  /** One key after both passes: the include groups from the first, the exclude groups from the second. */
  lemma TwoPassesKey(f: NsFilter, a: NsFilter, gi: seq<seq<NsPredicate>>, ge: seq<seq<NsPredicate>>)
    requires Appended(a, NsFilter([], []), gi, IncludeFilters)
    requires Appended(f, a, ge, ExcludeFilters)
    ensures f == NsFilter(gi, ge)
  {
    assert a.Include == gi && a.Exclude == [];
  }

  /** The include pass followed by the exclude pass leaves both lists of every key complete. */
  lemma TwoPasses(afterInclude: map<string, NsFilter>, r: map<string, NsFilter>,
                  inc: seq<VsComposeInclude>, exc: seq<VsComposeInclude>)
    requires afterInclude.Keys == Systems(inc)
    requires forall k :: k in afterInclude ==> Appended(afterInclude[k], NsFilter([], []), GroupsFor(inc, k), IncludeFilters)
    requires forall k :: k in r ==> Appended(r[k], Lookup(afterInclude, k), GroupsFor(exc, k), ExcludeFilters)
    ensures forall k :: k in r ==> r[k] == NsFilter(GroupsFor(inc, k), GroupsFor(exc, k))
  {
    forall k | k in r
      ensures r[k] == NsFilter(GroupsFor(inc, k), GroupsFor(exc, k))
    {
      if k !in afterInclude {
        GroupsForAbsent(inc, k);
      }
      TwoPassesKey(r[k], Lookup(afterInclude, k), GroupsFor(inc, k), GroupsFor(exc, k));
    }
  }

  /**
   * valueSetComposeFiltersToNsFilters: the include pass, then the exclude pass,
   * over one map. Keys are the normalized systems of all entries; under each
   * key, Include holds the include entries' groups and Exclude the exclude
   * entries' groups, both in encounter order. The error result is always nil.
   */
  method ValueSetComposeFiltersToNsFilters(vs: ValueSet) returns (nsFilters: map<string, NsFilter>, err: Option<string>)
    requires vs.Compose.Some?
    ensures err == None
    ensures nsFilters.Keys == Systems(vs.Compose.value.Include) + Systems(vs.Compose.value.Exclude)
    ensures forall k :: k in nsFilters ==>
      nsFilters[k] == NsFilter(GroupsFor(vs.Compose.value.Include, k), GroupsFor(vs.Compose.value.Exclude, k))
  {
    var inc, exc := vs.Compose.value.Include, vs.Compose.value.Exclude;
    nsFilters := map[];
    nsFilters := ComposeFiltersToNsFilters(nsFilters, inc, IncludeFilters);
    ghost var afterInclude := nsFilters;
    assert forall k :: k in afterInclude ==> Lookup(map[], k) == NsFilter([], []);
    nsFilters := ComposeFiltersToNsFilters(nsFilters, exc, ExcludeFilters);
    TwoPasses(afterInclude, nsFilters, inc, exc);
    err := None;
  }

  /** GroupsFor contributes nothing to a key that no entry names. */
  lemma {:induction false} GroupsForAbsent(es: seq<VsComposeInclude>, k: string)
    requires k !in Systems(es)
    ensures GroupsFor(es, k) == []
    decreases |es|
  {
    if es != [] {
      assert Systems(es[..|es| - 1]) <= Systems(es) by {
        forall e | e in es[..|es| - 1] ensures e in es { }
      }
      GroupsForAbsent(es[..|es| - 1], k);
    }
  }

  /** Every group of GroupsFor comes from an entry that names k and has filters or concepts. */
  lemma {:induction false} GroupsForSources(es: seq<VsComposeInclude>, k: string, g: seq<NsPredicate>)
    requires g in GroupsFor(es, k)
    ensures exists e :: e in es && NormalizeNsUrl(e.System) == k && HasGroup(e) && g == Group(e)
    decreases |es|
  {
    var last := es[|es| - 1];
    if g in GroupsFor(es[..|es| - 1], k) {
      GroupsForSources(es[..|es| - 1], k, g);
      var e :| e in es[..|es| - 1] && NormalizeNsUrl(e.System) == k && HasGroup(e) && g == Group(e);
      assert e in es;
    } else {
      assert last in es;
    }
  }

  /** The compose section of the example in expand_test.go: two LOINC spellings included, SNOMED concepts excluded. */
  const ExampleInclude: seq<VsComposeInclude> := [
    VsComposeInclude("http://loinc.org/", Some([VsComposeIncludeFilter("foo", "bar", "42")]), None),
    VsComposeInclude("http://loinc.org", Some([VsComposeIncludeFilter("foo", "bar", "46")]), None)]

  const ExampleExclude: seq<VsComposeInclude> := [
    VsComposeInclude("http://snomed.info/ct/", None,
      Some([VsComposeIncludeConcept("123456"), VsComposeIncludeConcept("7890")]))]

  lemma ExampleUrls()
    ensures NormalizeNsUrl("http://loinc.org/") == "http://loinc.org"
    ensures NormalizeNsUrl("http://loinc.org") == "http://loinc.org"
    ensures NormalizeNsUrl("http://snomed.info/ct/") == "http://snomed.info/ct"
    ensures "http://loinc.org" != "http://snomed.info/ct"
  {
    var loinc: string := "http://loinc.org";
    var snomed: string := "http://snomed.info/ct";
    NormalizeUnique("http://loinc.org/", loinc);
    NormalizeUnique(loinc, loinc);
    NormalizeUnique("http://snomed.info/ct/", snomed);
    assert loinc[7] != snomed[7];
  }

  /** GroupsFor of a single entry. */
  lemma GroupsForSingle(e: VsComposeInclude, k: string)
    ensures GroupsFor([e], k) == if NormalizeNsUrl(e.System) == k && HasGroup(e) then [Group(e)] else []
  {
    assert [e][..0] == [];
  }

  /** A group built from one filter and no concepts is that filter's predicate. */
  lemma SingleFilterGroup(s: string, f: VsComposeIncludeFilter)
    ensures Group(VsComposeInclude(s, Some([f]), None)) == [NsPredicate(f.Op, f.Value, f.Property, None)]
  {
    assert [f][..0] == [];
    assert FilterPredicates([f]) == FilterPredicates([]) + [VsFilterToNsPredicate(f)];
  }

  /** Both LOINC spellings land under one key and contribute a group each, in order. */
  lemma ExampleLoinc()
    ensures Systems(ExampleInclude) == {"http://loinc.org"}
    ensures GroupsFor(ExampleInclude, "http://loinc.org") == [
      [NsPredicate("bar", "42", "foo", None)],
      [NsPredicate("bar", "46", "foo", None)]]
    ensures GroupsFor(ExampleInclude, "http://snomed.info/ct") == []
  {
    ExampleUrls();
    var a, b := ExampleInclude[0], ExampleInclude[1];
    assert ExampleInclude == [a] + [b];
    GroupsForSingle(a, "http://loinc.org");
    GroupsForSingle(a, "http://snomed.info/ct");
    GroupsForSnoc([a], b, "http://loinc.org");
    GroupsForSnoc([a], b, "http://snomed.info/ct");
    SingleFilterGroup(a.System, a.Filter.value[0]);
    SingleFilterGroup(b.System, b.Filter.value[0]);
  }

  /** The SNOMED exclusion is one group holding a single "in" predicate. */
  lemma ExampleSnomed()
    ensures Systems(ExampleExclude) == {"http://snomed.info/ct"}
    ensures GroupsFor(ExampleExclude, "http://snomed.info/ct") == [
      [NsPredicate("in", "", "concept",
         Some([VsComposeIncludeConcept("123456"), VsComposeIncludeConcept("7890")]))]]
    ensures GroupsFor(ExampleExclude, "http://loinc.org") == []
  {
    ExampleUrls();
    var c := ExampleExclude[0];
    assert ExampleExclude == [c];
    GroupsForSingle(c, "http://loinc.org");
    GroupsForSingle(c, "http://snomed.info/ct");
    assert Group(c) == [] + [VsConceptsToNsPredicate(c.Concept.value)];
    assert Group(c) == [NsPredicate("in", "", "concept",
         Some([VsComposeIncludeConcept("123456"), VsComposeIncludeConcept("7890")]))];
  }

  /** The example of expand_test.go compiled: two keys, with the groups the test expects. */
  method ComposeExample() returns (nsFilters: map<string, NsFilter>)
    ensures nsFilters.Keys == {"http://loinc.org", "http://snomed.info/ct"}
    ensures nsFilters["http://loinc.org"] == NsFilter(
      [[NsPredicate("bar", "42", "foo", None)], [NsPredicate("bar", "46", "foo", None)]], [])
    ensures nsFilters["http://snomed.info/ct"] == NsFilter([], [
      [NsPredicate("in", "", "concept",
         Some([VsComposeIncludeConcept("123456"), VsComposeIncludeConcept("7890")]))]])
  {
    var vs := ValueSet("", "ValueSet", "", "", "", "", Some(VsCompose(ExampleInclude, ExampleExclude)));
    ExampleLoinc();
    ExampleSnomed();
    var err;
    nsFilters, err := ValueSetComposeFiltersToNsFilters(vs);
  }
}
