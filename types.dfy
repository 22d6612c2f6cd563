/** The entities of the notebook client: sources, chat messages and the
    citations attached to assistant answers. Creation timestamps are opaque
    strings; identifiers are opaque and not guaranteed unique. */
module Types {
  import opened Wrappers
  import Seqs

  datatype SourceType = Pdf | Url | Youtube | Audio | Document | PlainText
  datatype SourceStatus = Processing | Ready | Error

  /** A source attached to a notebook (`metadata` keeps the file name and
      the URL it was taken from). */
  datatype Source = Source(
    id: string,
    title: string,
    kind: SourceType,
    content: Option<string>,
    filename: Option<string>,
    url: Option<string>,
    status: SourceStatus,
    createdAt: string,
    size: Option<nat>,
    wordCount: Option<nat>)

  datatype Position = Position(start: nat, end: nat)

  /** A grounding reference of one assistant answer; `number` is the `n` of
      the marker `[n]` it belongs to. */
  datatype Citation = Citation(
    number: nat,
    sourceId: string,
    sourceTitle: string,
    pageNumber: Option<nat>,
    quote: string,
    relevanceScore: real,
    position: Position)

  datatype Role = User | Assistant

  /** One turn of the transcript; user messages carry no citations. */
  datatype ChatMessage = ChatMessage(
    id: string,
    content: string,
    role: Role,
    citations: seq<Citation>,
    timestamp: string,
    processingTime: Option<real>,
    confidenceScore: Option<real>)

  predicate IsReady(s: Source) { s.status == Ready }

  /** `sources.filter(s => s.status === 'ready')`. */
  function ReadySources(sources: seq<Source>): (r: seq<Source>)
    ensures |r| <= |sources|
  {
    Seqs.Filter(IsReady, sources)
  }

  /** The ready list holds exactly the ready sources, in their order, each
      as often as in the list. */
  lemma ReadySourcesSpec(sources: seq<Source>)
    ensures forall s :: s in ReadySources(sources) <==> s in sources && s.status == Ready
    ensures Seqs.IsSubsequence(ReadySources(sources), sources)
    ensures forall s :: multiset(ReadySources(sources))[s]
                        == if s.status == Ready then multiset(sources)[s] else 0
  {
    forall s ensures s in ReadySources(sources) <==> s in sources && s.status == Ready {
      Seqs.FilterMembers(IsReady, sources, s);
    }
    forall s ensures multiset(ReadySources(sources))[s]
                     == if s.status == Ready then multiset(sources)[s] else 0 {
      Seqs.FilterCounts(IsReady, sources, s);
    }
    Seqs.FilterSubsequence(IsReady, sources);
  }

  /** A source that is not ready does not change the ready list. */
  lemma ReadyIgnoresUnready(sources: seq<Source>, s: Source)
    requires s.status != Ready
    ensures ReadySources(sources + [s]) == ReadySources(sources)
  {
    Seqs.FilterAppend(IsReady, sources, [s]);
    assert Seqs.Filter(IsReady, [s]) == [];
  }

  /** `sources.map(s => s.type)`. */
  function Kinds(sources: seq<Source>): (r: seq<SourceType>)
    ensures |r| == |sources|
  {
    seq(|sources|, i requires 0 <= i < |sources| => sources[i].kind)
  }

  /** A type is listed exactly when some source has it. */
  lemma KindsMembers(sources: seq<Source>, t: SourceType)
    ensures t in Kinds(sources) <==> exists s :: s in sources && s.kind == t
  {
    if t in Kinds(sources) {
      var i :| 0 <= i < |sources| && Kinds(sources)[i] == t;
      assert sources[i] in sources;
    }
    if exists s :: s in sources && s.kind == t {
      var s :| s in sources && s.kind == t;
      var i :| 0 <= i < |sources| && sources[i] == s;
      assert Kinds(sources)[i] == t;
    }
  }
}
