/** The source list of a notebook: search and type filtering, adding a
    source, removing one by id, and the list of type filters offered. Every
    operation builds a new list; the notebook is never changed in place. */
module SourceManager {
  import opened Strings
  import opened Types
  import Seqs

  /** The selected type filter: `all`, or one source type. */
  datatype TypeFilter = AllTypes | OfType(kind: SourceType)

  /** The lower-cased title contains the lower-cased query. */
  predicate MatchesSearch(s: Source, query: string) {
    Contains(Lower(s.title), Lower(query))
  }

  predicate MatchesFilter(s: Source, filter: TypeFilter) {
    filter.AllTypes? || filter.kind == s.kind
  }

  /** The test `filteredSources` applies to each source. */
  function Shown(query: string, filter: TypeFilter): Source -> bool {
    (s: Source) => MatchesSearch(s, query) && MatchesFilter(s, filter)
  }

  /** `filteredSources`. */
  function FilteredSources(sources: seq<Source>, query: string, filter: TypeFilter): seq<Source> {
    Seqs.Filter(Shown(query, filter), sources)
  }

  /** The shown list is the sources in their order with some left out; a
      source is shown exactly when its title matches the search and its type
      the filter, and then as often as it is in the list. */
  lemma FilteredSpec(sources: seq<Source>, query: string, filter: TypeFilter, s: Source)
    ensures Seqs.IsSubsequence(FilteredSources(sources, query, filter), sources)
    ensures s in FilteredSources(sources, query, filter)
            <==> s in sources && MatchesSearch(s, query) && MatchesFilter(s, filter)
    ensures multiset(FilteredSources(sources, query, filter))[s]
            == if MatchesSearch(s, query) && MatchesFilter(s, filter) then multiset(sources)[s] else 0
  {
    Seqs.FilterSubsequence(Shown(query, filter), sources);
    Seqs.FilterMembers(Shown(query, filter), sources, s);
    Seqs.FilterCounts(Shown(query, filter), sources, s);
  }

  /** The search ignores the case of the query. */
  lemma SearchIgnoresCase(s: Source, query: string)
    ensures MatchesSearch(s, query) == MatchesSearch(s, Lower(query))
  {
    assert Lower(Lower(query)) == Lower(query);
  }

  /** `a` and `b` spell the same letters, up to their case. */
  predicate SameUpToCase(a: string, b: string) {
    |a| == |b| && forall i :: 0 <= i < |a| ==> LowerChar(a[i]) == LowerChar(b[i])
  }

  /** Titles and queries that differ only in the case of their letters
      select alike. */
  lemma SearchCaseInsensitive(s: Source, t: Source, q: string, r: string)
    requires SameUpToCase(s.title, t.title) && SameUpToCase(q, r)
    ensures MatchesSearch(s, q) == MatchesSearch(t, r)
  {
    assert Lower(s.title) == Lower(t.title);
    assert Lower(q) == Lower(r);
  }

  /** With the filters cleared (empty query, `all`) every source is shown. */
  lemma ClearedFiltersShowAll(sources: seq<Source>)
    ensures FilteredSources(sources, "", AllTypes) == sources
  {
    forall i | 0 <= i < |sources| ensures Shown("", AllTypes)(sources[i]) {
      assert OccursAt(Lower(sources[i].title), Lower(""), 0);
    }
    Seqs.FilterAll(Shown("", AllTypes), sources);
  }

  /** `handleSourceAdded`: the new source goes at the end. */
  function AddSource(sources: seq<Source>, s: Source): seq<Source> {
    sources + [s]
  }

  /** The test `handleSourceRemoved` applies to each source. */
  function Keeps(id: string): Source -> bool {
    (s: Source) => s.id != id
  }

  /** `handleSourceRemoved`: every source with the id goes. */
  function RemoveSource(sources: seq<Source>, id: string): seq<Source> {
    Seqs.Filter(Keeps(id), sources)
  }

  /** Adding keeps every existing entry where it was and puts the new one
      last, even when a source with the same id is already there. */
  lemma AddSpec(sources: seq<Source>, s: Source)
    ensures |AddSource(sources, s)| == |sources| + 1
    ensures AddSource(sources, s)[..|sources|] == sources
    ensures AddSource(sources, s)[|sources|] == s
    ensures multiset(AddSource(sources, s))[s] == multiset(sources)[s] + 1
  {
    assert (sources + [s])[..|sources|] == sources;
  }

  /** Removing keeps the other sources in their order, each as often as
      before, and leaves none with the id. */
  lemma RemoveSpec(sources: seq<Source>, id: string, s: Source)
    ensures Seqs.IsSubsequence(RemoveSource(sources, id), sources)
    ensures s in RemoveSource(sources, id) <==> s in sources && s.id != id
    ensures multiset(RemoveSource(sources, id))[s] == if s.id != id then multiset(sources)[s] else 0
  {
    Seqs.FilterSubsequence(Keeps(id), sources);
    Seqs.FilterMembers(Keeps(id), sources, s);
    Seqs.FilterCounts(Keeps(id), sources, s);
  }

  /** Adding a source whose id is new and then removing that id gives the
      list back. */
  lemma AddThenRemove(sources: seq<Source>, s: Source)
    requires forall i :: 0 <= i < |sources| ==> sources[i].id != s.id
    ensures RemoveSource(AddSource(sources, s), s.id) == sources
  {
    Seqs.FilterAppend(Keeps(s.id), sources, [s]);
    Seqs.FilterAll(Keeps(s.id), sources);
  }

  /** `['all', ...new Set(sources.map(s => s.type))]`. */
  function SourceTypes(sources: seq<Source>): (r: seq<TypeFilter>)
    ensures |r| >= 1 && r[0] == AllTypes
    ensures forall i :: 1 <= i < |r| ==> r[i].OfType?
  {
    var kinds := Seqs.Distinct(Kinds(sources));
    [AllTypes] + seq(|kinds|, i requires 0 <= i < |kinds| => OfType(kinds[i]))
  }

  /** After `all`, the filters are the distinct types, in order. */
  lemma SourceTypesTail(sources: seq<Source>)
    ensures |SourceTypes(sources)| == |Seqs.Distinct(Kinds(sources))| + 1
    ensures forall i :: 1 <= i < |SourceTypes(sources)| ==>
              SourceTypes(sources)[i] == OfType(Seqs.Distinct(Kinds(sources))[i - 1])
  {
  }

  /** A type is offered exactly when some source has it. */
  lemma SourceTypesMembers(sources: seq<Source>, t: SourceType)
    ensures OfType(t) in SourceTypes(sources) <==> t in Kinds(sources)
  {
    var kinds := Seqs.Distinct(Kinds(sources));
    var r := SourceTypes(sources);
    SourceTypesTail(sources);
    Seqs.DistinctMembers(Kinds(sources));
    if OfType(t) in r {
      var j :| 0 <= j < |r| && r[j] == OfType(t);
      assert kinds[j - 1] == t;
    }
    if t in Kinds(sources) {
      assert t in kinds;
      var j :| 0 <= j < |kinds| && kinds[j] == t;
      assert r[j + 1] == OfType(t);
    }
  }

  /** Each filter is offered once. */
  lemma SourceTypesDistinct(sources: seq<Source>)
    ensures Seqs.NoDuplicates(SourceTypes(sources))
  {
    SourceTypesTail(sources);
    Seqs.DistinctNoDuplicates(Kinds(sources));
  }

  /** The types are offered in the order they first appear in the list. */
  lemma SourceTypesOrder(sources: seq<Source>)
    ensures forall i, j :: 1 <= i < j < |SourceTypes(sources)| ==>
              Seqs.FirstIndex(Kinds(sources), SourceTypes(sources)[i].kind)
              < Seqs.FirstIndex(Kinds(sources), SourceTypes(sources)[j].kind)
  {
    SourceTypesTail(sources);
    Seqs.DistinctOrder(Kinds(sources));
  }

  /** A source of a type already listed leaves the type filters as they
      were; one of a new type adds that type at the end. */
  lemma AddSourceTypes(sources: seq<Source>, s: Source)
    ensures SourceTypes(AddSource(sources, s))
            == if s.kind in Kinds(sources) then SourceTypes(sources) else SourceTypes(sources) + [OfType(s.kind)]
  {
    assert Kinds(sources + [s]) == Kinds(sources) + [s.kind];
    Seqs.DistinctSnoc(Kinds(sources), s.kind);
  }
}
