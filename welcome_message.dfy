/** The greeting shown in an empty chat: it counts the notebook's ready
    sources, names their kinds, and offers starter questions once there is
    something to ask about. */
module WelcomeMessage {
  import opened Strings
  import opened Types
  import Seqs

  const UploadPrompt: string :=
    "Upload sources to start getting AI-powered insights from your documents."
  const MessageOpening: string := "I can help you analyze your "
  const SourceWord: string := " source"
  const ListOpening: string := " ("
  const ListSeparator: string := ", "
  const MessageClosing: string := "). Ask me anything about your research!"

  const SuggestedQuestionList: seq<string> := [
    "What are the main themes across all sources?",
    "Can you summarize the key findings?",
    "What questions do these sources answer?",
    "Are there any conflicting viewpoints?"
  ]

  /** The plural noun each source type is described by; plain text falls to
      the default, `sources`. */
  function TypeDescription(t: SourceType): string {
    match t
    case Pdf => "PDFs"
    case Url => "websites"
    case Youtube => "videos"
    case Audio => "audio files"
    case Document => "documents"
    case PlainText => "sources"
  }

  /** Different types are described differently. */
  lemma TypeDescriptionInjective(t: SourceType, u: SourceType)
    ensures TypeDescription(t) == TypeDescription(u) ==> t == u
  {
  }

  /** `[...new Set(readySources.map(s => s.type))]`. */
  function ReadyTypes(sources: seq<Source>): seq<SourceType> {
    Seqs.Distinct(Kinds(ReadySources(sources)))
  }

  function TypeDescriptions(sources: seq<Source>): (r: seq<string>)
    ensures |r| == |ReadyTypes(sources)|
  {
    var types := ReadyTypes(sources);
    seq(|types|, i requires 0 <= i < |types| => TypeDescription(types[i]))
  }

  /** The `source`/`sources` part, after the count. */
  function Noun(n: nat): (r: string)
    ensures |r| == |SourceWord| + (if n != 1 then 1 else 0) && r[..|SourceWord|] == SourceWord
    ensures n != 1 ==> r[|SourceWord|] == 's'
  {
    if n != 1 then SourceWord + "s" else SourceWord
  }

  /** ` (PDFs, websites). Ask me anything about your research!` */
  function TypeList(sources: seq<Source>): (r: string)
    ensures r != [] && r[0] == ' '
  {
    ListOpening + Join(TypeDescriptions(sources), ListSeparator) + MessageClosing
  }

  function Welcome(sources: seq<Source>): string {
    var n := |ReadySources(sources)|;
    if n == 0 then UploadPrompt
    else
      MessageOpening + NatToString(n) + Noun(n) + TypeList(sources)
  }

  function SuggestedQuestions(sources: seq<Source>): seq<string> {
    if |ReadySources(sources)| == 0 then [] else SuggestedQuestionList
  }

  /** The upload prompt and the absence of suggestions both mean, and only
      mean, that no source is ready. */
  lemma NothingReady(sources: seq<Source>)
    ensures Welcome(sources) == UploadPrompt <==> ReadySources(sources) == []
    ensures SuggestedQuestions(sources) == [] <==> ReadySources(sources) == []
    ensures ReadySources(sources) != [] ==> |SuggestedQuestions(sources)| == 4
  {
    if ReadySources(sources) != [] {
      assert Welcome(sources)[0] == MessageOpening[0];
    }
  }

  /** In `head + NatToString(n) + Noun(n) + rest`, the digits after `head`
      read back as `n` and are followed by ` source`, then by `s` exactly
      when `n` is not one. */
  lemma CountPhrase(head: string, n: nat, rest: string)
    requires rest != [] && rest[0] != 's'
    ensures var r := head + NatToString(n) + Noun(n) + rest;
            var k := |head|; var d := |NatToString(n)|;
      && |r| > k + d + |SourceWord| && r[..k] == head
      && AllDigits(r[k..k + d]) && DigitsValue(r[k..k + d]) == n
      && r[k + d..k + d + |SourceWord|] == SourceWord
      && (r[k + d + |SourceWord|] == 's' <==> n != 1)
  {
    var digits := NatToString(n);
    var noun := Noun(n);
    var r := head + digits + noun + rest;
    var k := |head|;
    var d := |digits|;
    var tail := noun + rest;
    assert r == head + digits + tail;
    assert r[k..] == digits + tail;
    assert r[k..k + d] == digits;
    assert r[k + d..] == tail;
    assert tail[..|SourceWord|] == SourceWord;
    NatToStringReadsBack(n);
  }

  /** With ready sources, the greeting opens with their number and then
      `source`, followed by `s` exactly when the number is not one. */
  lemma WelcomeCounts(sources: seq<Source>)
    requires ReadySources(sources) != []
    ensures var r := Welcome(sources); var n := |ReadySources(sources)|;
            var k := |MessageOpening|; var d := |NatToString(n)|;
      && |r| > k + d + |SourceWord| && r[..k] == MessageOpening
      && AllDigits(r[k..k + d]) && DigitsValue(r[k..k + d]) == n
      && r[k + d..k + d + |SourceWord|] == SourceWord
      && (r[k + d + |SourceWord|] == 's' <==> n != 1)
  {
    CountPhrase(MessageOpening, |ReadySources(sources)|, TypeList(sources));
  }

  /** With ready sources, the greeting closes with the type descriptions in
      parentheses, separated by commas. */
  lemma WelcomeListsTypes(sources: seq<Source>)
    requires ReadySources(sources) != []
    ensures var r := Welcome(sources);
            var tail := ListOpening + Join(TypeDescriptions(sources), ListSeparator) + MessageClosing;
            |r| >= |tail| && r[|r| - |tail|..] == tail
  {
    var n := |ReadySources(sources)|;
    var head := MessageOpening + NatToString(n) + Noun(n);
    assert Welcome(sources) == head + TypeList(sources);
  }

  /** A kind is described exactly when some ready source has it. */
  lemma DescriptionsMembers(sources: seq<Source>, t: SourceType)
    ensures TypeDescription(t) in TypeDescriptions(sources) <==>
            exists s :: s in sources && s.status == Ready && s.kind == t
  {
    var ready := ReadySources(sources);
    var types := ReadyTypes(sources);
    var descs := TypeDescriptions(sources);
    Seqs.DistinctMembers(Kinds(ready));
    KindsMembers(ready, t);
    ReadySourcesSpec(sources);
    if TypeDescription(t) in descs {
      var i :| 0 <= i < |descs| && descs[i] == TypeDescription(t);
      TypeDescriptionInjective(t, types[i]);
      assert types[i] in types;
    }
    if t in types {
      var i :| 0 <= i < |types| && types[i] == t;
      assert descs[i] == TypeDescription(t);
    }
  }

  /** Each description appears once, in the order its type is first seen
      among the ready sources. */
  lemma DescriptionsDistinctInOrder(sources: seq<Source>)
    ensures Seqs.NoDuplicates(TypeDescriptions(sources))
    ensures forall i, j :: 0 <= i < j < |ReadyTypes(sources)| ==>
              Seqs.FirstIndex(Kinds(ReadySources(sources)), ReadyTypes(sources)[i])
              < Seqs.FirstIndex(Kinds(ReadySources(sources)), ReadyTypes(sources)[j])
  {
    var types := ReadyTypes(sources);
    var descs := TypeDescriptions(sources);
    Seqs.DistinctNoDuplicates(Kinds(ReadySources(sources)));
    Seqs.DistinctOrder(Kinds(ReadySources(sources)));
    forall i, j | 0 <= i < j < |descs| ensures descs[i] != descs[j] {
      TypeDescriptionInjective(types[i], types[j]);
    }
  }

  /** A source still processing, or failed, changes neither the greeting nor
      the suggestions. */
  lemma WelcomeIgnoresUnready(sources: seq<Source>, s: Source)
    requires s.status != Ready
    ensures Welcome(sources + [s]) == Welcome(sources)
    ensures SuggestedQuestions(sources + [s]) == SuggestedQuestions(sources)
  {
    ReadyIgnoresUnready(sources, s);
  }
}
