/** The simple chat screen of a notebook: the transcript of questions and
    simulated answers, the text box with its send guard, the voice button,
    the placeholder, and the split-based rendering of citation markers in
    answers. The reply and the voice transcript arrive from timers; each
    timer callback is a method of its own. */
module SimpleChat {
  import opened Wrappers
  import opened Strings
  import opened Types
  import opened CitationRenderer

  // ---------------------------------------------------------------------
  // The transcript
  // ---------------------------------------------------------------------

  /** Message `i` (counting from 0) is a question when `i` is even and an
      answer when it is odd. */
  predicate Alternates(ms: seq<ChatMessage>) {
    forall i :: 0 <= i < |ms| ==> ms[i].role == (if i % 2 == 0 then User else Assistant)
  }

  /** The transcript invariant: roles alternate starting with the user, and
      a reply is pending exactly when the last question is unanswered. */
  predicate Consistent(ms: seq<ChatMessage>, loading: bool) {
    Alternates(ms) && (loading <==> |ms| % 2 == 1)
  }

  function UserMessage(id: string, content: string, timestamp: string): ChatMessage {
    ChatMessage(id, content, User, [], timestamp, None, None)
  }

  /** Sending while no reply is pending keeps the transcript consistent. */
  lemma SendKeepsConsistent(ms: seq<ChatMessage>, m: ChatMessage)
    requires Consistent(ms, false) && m.role == User
    ensures Consistent(ms + [m], true)
  {
  }

  /** The reply to the pending question keeps the transcript consistent. */
  lemma ReplyKeepsConsistent(ms: seq<ChatMessage>, m: ChatMessage)
    requires Consistent(ms, true) && m.role == Assistant
    ensures Consistent(ms + [m], false)
  {
  }

  /** The number of messages with role `r`. */
  function RoleCount(ms: seq<ChatMessage>, r: Role): (n: nat)
    ensures n <= |ms|
    decreases |ms|
  {
    if |ms| == 0 then 0
    else RoleCount(ms[..|ms| - 1], r) + (if ms[|ms| - 1].role == r then 1 else 0)
  }

  /** Every question is answered except the pending one: there are as many
      answers as questions, or one fewer while a reply is pending. */
  lemma {:induction false} TurnCounts(ms: seq<ChatMessage>, loading: bool)
    requires Consistent(ms, loading)
    ensures RoleCount(ms, User) == RoleCount(ms, Assistant) + (if loading then 1 else 0)
    decreases |ms|
  {
    if |ms| != 0 {
      var init := ms[..|ms| - 1];
      assert forall i :: 0 <= i < |init| ==> init[i] == ms[i];
      TurnCounts(init, !loading);
    }
  }

  /** While a reply is pending, the last message is the question it answers. */
  lemma PendingQuestionIsLast(ms: seq<ChatMessage>)
    requires Consistent(ms, true)
    ensures |ms| > 0 && ms[|ms| - 1].role == User
  {
  }

  // ---------------------------------------------------------------------
  // The simulated answer
  // ---------------------------------------------------------------------

  /** `a || b` on strings: the empty string counts as missing. */
  function OrElse(a: string, b: string): string {
    if a == "" then b else a
  }

  /** `sources[i]?.id || fallback`. */
  function SourceIdOr(sources: seq<Source>, i: nat, fallback: string): string {
    if i < |sources| then OrElse(sources[i].id, fallback) else fallback
  }

  /** `sources[i]?.title || fallback`. */
  function SourceTitleOr(sources: seq<Source>, i: nat, fallback: string): string {
    if i < |sources| then OrElse(sources[i].title, fallback) else fallback
  }

  const FirstQuote: string := "This is a relevant quote from the first source that supports the AI response."
  const SecondQuote: string := "Another important quote that adds context to the discussion."
  const ReplyOpening: string := "Based on your "
  const ReplyMiddle: string := " sources, here's what I found: This is a simulated AI response with citations "
  const ReplyMarkers: string := "[1] [2]"
  const ReplyClosing: string := ". The information shows interesting patterns across your research materials."

  /** The text before the two markers of the answer. */
  function ReplyLead(ready: nat): string {
    ReplyOpening + NatToString(ready) + ReplyMiddle
  }

  /** The answer text, quoting the number of ready sources. */
  function ReplyContent(ready: nat): string {
    ReplyLead(ready) + ReplyMarkers + ReplyClosing
  }

  /** The two citations of the answer, taken from the first two sources. */
  function ReplyCitations(sources: seq<Source>): seq<Citation> {
    [ Citation(1, SourceIdOr(sources, 0, "source-1"), SourceTitleOr(sources, 0, "First Source"), None,
               FirstQuote,
               0.95, Position(65, 78)),
      Citation(2, SourceIdOr(sources, 1, "source-2"), SourceTitleOr(sources, 1, "Second Source"), None,
               SecondQuote,
               0.87, Position(79, 82)) ]
  }

  /** The answer the reply timer appends, for the sources it captured. */
  function MockReply(id: string, timestamp: string, sources: seq<Source>): ChatMessage {
    ChatMessage(id, ReplyContent(|ReadySources(sources)|), Assistant, ReplyCitations(sources),
                timestamp, Some(1.2), Some(0.89))
  }

  /** The answer's citations carry the numbers 1 and 2. Each takes its id
      and title from the source at its position, falling back to `source-1`
      / `source-2` and the generic titles when that source is missing or the
      field is empty. */
  lemma ReplyFallbacks(sources: seq<Source>)
    ensures var c := ReplyCitations(sources);
      |c| == 2 && c[0].number == 1 && c[1].number == 2
      && c[0].sourceId == (if |sources| > 0 && sources[0].id != "" then sources[0].id else "source-1")
      && c[0].sourceTitle == (if |sources| > 0 && sources[0].title != "" then sources[0].title else "First Source")
      && c[1].sourceId == (if |sources| > 1 && sources[1].id != "" then sources[1].id else "source-2")
      && c[1].sourceTitle == (if |sources| > 1 && sources[1].title != "" then sources[1].title else "Second Source")
      && c[0].quote == FirstQuote && c[1].quote == SecondQuote
  {
  }

  /** The answer's text holds the markers `[1]` and `[2]` right after its
      lead. The chat's own `CitationText` shows each as a button resolved to
      the answer's citation with that number, and the citation-aware
      renderer would link them the same way. */
  lemma ReplyCitesBoth(id: string, timestamp: string, sources: seq<Source>)
    ensures var m := MockReply(id, timestamp, sources);
      var p := |ReplyLead(|ReadySources(sources)|)|;
      |m.citations| == 2
      && IsMarkerAt(m.content, p, 1) && IsMarkerAt(m.content, p + 4, 1)
      && CitationButton(1, Some(m.citations[0])) in CitationText(m.content, m.citations)
      && CitationButton(2, Some(m.citations[1])) in CitationText(m.content, m.citations)
      && CitationPart(1, Some(m.citations[0]), p, 3) in Render(m.content, m.citations)
      && CitationPart(2, Some(m.citations[1]), p + 4, 3) in Render(m.content, m.citations)
  {
    MarkersAfterLead(ReplyLead(|ReadySources(sources)|), ReplyClosing, ReplyCitations(sources));
  }

  /** `[1] [2]` between any two texts: both markers, each shown as the
      button for, and rendered as the link to, the citation with its
      number. */
  lemma MarkersAfterLead(lead: string, closing: string, cits: seq<Citation>)
    requires |cits| == 2 && cits[0].number == 1 && cits[1].number == 2
    ensures var s := lead + ReplyMarkers + closing; var p := |lead|;
      IsMarkerAt(s, p, 1) && IsMarkerAt(s, p + 4, 1)
      && CitationButton(1, Some(cits[0])) in CitationText(s, cits)
      && CitationButton(2, Some(cits[1])) in CitationText(s, cits)
      && CitationPart(1, Some(cits[0]), p, 3) in Render(s, cits)
      && CitationPart(2, Some(cits[1]), p + 4, 3) in Render(s, cits)
  {
    var s := lead + ReplyMarkers + closing;
    var p := |lead|;
    assert s[p..p + 7] == ReplyMarkers;
    assert s[p] == '[' && s[p + 1] == '1' && s[p + 2] == ']';
    assert s[p + 4] == '[' && s[p + 5] == '2' && s[p + 6] == ']';
    OneDigitLink(s, p, cits);
    OneDigitLink(s, p + 4, cits);
    assert FindCitation(cits, 1) == Some(cits[0]);
    assert cits[1..][0] == cits[1] && CitationIndex(cits[1..], 2) == Some(0);
  }

  /** A one-digit marker at `p` is shown as the button for, and rendered as
      the link to, the first citation with that digit's value. */
  lemma OneDigitLink(s: string, p: nat, cits: seq<Citation>)
    requires p + 3 <= |s| && s[p] == '[' && IsDigit(s[p + 1]) && s[p + 2] == ']'
    ensures IsMarkerAt(s, p, 1)
    ensures LinkAt(s, p, 1, cits) == CitationPart(DigitValue(s[p + 1]), FindCitation(cits, DigitValue(s[p + 1])), p, 3)
    ensures LinkAt(s, p, 1, cits) in Render(s, cits)
    ensures CitationButton(DigitValue(s[p + 1]), FindCitation(cits, DigitValue(s[p + 1]))) in CitationText(s, cits)
  {
    assert DigitAt(s, p + 1);
    var d := s[p + 1..p + 2];
    assert d == [s[p + 1]] && d[..0] == [];
    assert DigitsValue(d) == DigitValue(s[p + 1]);
    RenderLinksEveryMarker(s, cits, p, 1);
    MarkerShownAsButton(s, cits, p, 1);
  }

  // ---------------------------------------------------------------------
  // The placeholder
  // ---------------------------------------------------------------------

  /** `Ask N source...`, with `s` unless `N` is one; `N` counts the ready
      sources. */
  function Placeholder(sources: seq<Source>): string {
    var n := |ReadySources(sources)|;
    "Ask " + NatToString(n) + (if n != 1 then " sources..." else " source...")
  }

  /** The number after `Ask ` reads back as the ready count, and the text
      ends in `sources...` exactly when that count is not one. */
  lemma PlaceholderStates(sources: seq<Source>)
    ensures var r := Placeholder(sources); var n := |ReadySources(sources)|; var d := NatToString(n);
      && |r| > 4 + |d| && r[..4] == "Ask " && AllDigits(r[4..4 + |d|]) && DigitsValue(r[4..4 + |d|]) == n
      && r[4 + |d|..] == (if n != 1 then " sources..." else " source...")
      && (r[|r| - 4..] == "s..." <==> n != 1)
  {
    var n := |ReadySources(sources)|;
    var d := NatToString(n);
    var tail := if n != 1 then " sources..." else " source...";
    var r := Placeholder(sources);
    assert r == "Ask " + d + tail;
    NatToStringReadsBack(n);
    assert r[4..4 + |d|] == d && r[4 + |d|] == tail[0];
    assert r[|r| - 4..] == tail[|tail| - 4..];
  }

  /** A source that is not ready leaves the placeholder as it was. */
  lemma PlaceholderIgnoresUnready(sources: seq<Source>, s: Source)
    requires s.status != Ready
    ensures Placeholder(sources + [s]) == Placeholder(sources)
  {
    ReadyIgnoresUnready(sources, s);
  }

  // ---------------------------------------------------------------------
  // The chat session
  // ---------------------------------------------------------------------

  /** What the voice timer types into the box. */
  const VoiceTranscript: string := "What are the main themes in my research?"

  class ChatSession {
    var messages: seq<ChatMessage>
    var inputValue: string
    var isLoading: bool
    var isVoiceRecording: bool
    /** The sources the reply timer captured when the question was sent. */
    var pendingSources: seq<Source>
    /** Voice timers started and not yet fired. */
    var pendingVoice: nat

    ghost predicate Valid()
      reads this
    {
      Consistent(messages, isLoading)
    }

    constructor ()
      ensures Valid()
      ensures messages == [] && inputValue == "" && !isLoading
      ensures !isVoiceRecording && pendingVoice == 0
    {
      messages, inputValue, isLoading := [], "", false;
      isVoiceRecording, pendingSources, pendingVoice := false, [], 0;
    }

    /** The send button is enabled, and Enter sends. */
    predicate CanSend()
      reads this
    {
      !IsBlank(inputValue) && !isLoading
    }

    /** The welcome message shows while the transcript is empty. */
    predicate ShowsWelcome()
      reads this
    {
      |messages| == 0
    }

    /** Send the typed question: unless the box is blank or a reply is
        pending, append it as a user message (untrimmed), clear the box,
        start loading and start the reply timer with the current sources. */
    method SendMessage(sources: seq<Source>, id: string, timestamp: string) returns (sent: bool)
      requires Valid()
      modifies this
      ensures Valid()
      ensures sent == old(CanSend())
      ensures sent ==> messages == old(messages) + [UserMessage(id, old(inputValue), timestamp)]
                       && inputValue == "" && isLoading && pendingSources == sources
                       && isVoiceRecording == old(isVoiceRecording) && pendingVoice == old(pendingVoice)
      ensures !sent ==> unchanged(this)
    {
      if IsBlank(inputValue) || isLoading {
        return false;
      }
      SendKeepsConsistent(messages, UserMessage(id, inputValue, timestamp));
      messages := messages + [UserMessage(id, inputValue, timestamp)];
      inputValue := "";
      isLoading := true;
      pendingSources := sources;
      sent := true;
    }

    /** The reply timer fires: append the simulated answer and stop loading.
        The box keeps whatever was typed meanwhile. */
    method ReceiveReply(id: string, timestamp: string)
      requires Valid() && isLoading
      modifies this
      ensures Valid()
      ensures messages == old(messages) + [MockReply(id, timestamp, old(pendingSources))]
      ensures !isLoading
      ensures inputValue == old(inputValue) && isVoiceRecording == old(isVoiceRecording)
      ensures pendingVoice == old(pendingVoice) && pendingSources == old(pendingSources)
    {
      ReplyKeepsConsistent(messages, MockReply(id, timestamp, pendingSources));
      messages := messages + [MockReply(id, timestamp, pendingSources)];
      isLoading := false;
    }

    /** Enter without Shift sends; any other key does nothing here. */
    method KeyDown(key: string, shift: bool, sources: seq<Source>, id: string, timestamp: string)
      returns (sent: bool)
      requires Valid()
      modifies this
      ensures Valid()
      ensures sent == (key == "Enter" && !shift && old(CanSend()))
      ensures sent ==> messages == old(messages) + [UserMessage(id, old(inputValue), timestamp)]
                       && inputValue == "" && isLoading && pendingSources == sources
                       && isVoiceRecording == old(isVoiceRecording) && pendingVoice == old(pendingVoice)
      ensures !sent ==> unchanged(this)
    {
      if key == "Enter" && !shift {
        sent := SendMessage(sources, id, timestamp);
      } else {
        sent := false;
      }
    }

    /** Typing replaces the box's text. */
    method SetInput(v: string)
      modifies this
      ensures inputValue == v
      ensures messages == old(messages) && isLoading == old(isLoading)
      ensures isVoiceRecording == old(isVoiceRecording) && pendingVoice == old(pendingVoice)
      ensures pendingSources == old(pendingSources)
    {
      inputValue := v;
    }

    /** The voice button: recording starts and a voice timer is started;
        nothing stops a second press from starting another. */
    method StartVoiceInput()
      modifies this
      ensures isVoiceRecording && pendingVoice == old(pendingVoice) + 1
      ensures messages == old(messages) && inputValue == old(inputValue)
      ensures isLoading == old(isLoading) && pendingSources == old(pendingSources)
    {
      isVoiceRecording := true;
      pendingVoice := pendingVoice + 1;
    }

    /** A voice timer fires: the canned question replaces the box's text and
        recording stops, even if another voice timer is still pending. */
    method VoiceInputDone()
      requires pendingVoice > 0
      modifies this
      ensures inputValue == VoiceTranscript && !isVoiceRecording
      ensures pendingVoice == old(pendingVoice) - 1
      ensures messages == old(messages) && isLoading == old(isLoading)
      ensures pendingSources == old(pendingSources)
    {
      inputValue := VoiceTranscript;
      isVoiceRecording := false;
      pendingVoice := pendingVoice - 1;
    }
  }

  /** The canned voice question is not blank, so it can be sent. */
  lemma VoiceTranscriptSendable()
    ensures !IsBlank(VoiceTranscript)
  {
    assert !IsSpace(VoiceTranscript[0]);
  }

  // ---------------------------------------------------------------------
  // `CitationText`: `content.split(/(\[\d+\])/)`, one button per marker
  // ---------------------------------------------------------------------

  /** The pieces of `s[from..]` split at the matches `ms`, the matched
      markers kept (the capturing group): text, marker, text, ..., text. */
  function Cut(s: string, from: nat, ms: seq<Match>): (r: seq<string>)
    requires from <= |s| && InOrder(s, from, ms)
    ensures |r| == 2 * |ms| + 1
    decreases |ms|
  {
    if |ms| == 0 then [s[from..]]
    else [s[from..ms[0].index], s[ms[0].index..End(ms[0])]] + Cut(s, End(ms[0]), ms[1..])
  }

  /** `content.split(/(\[\d+\])/)`. */
  function SplitAtMarkers(s: string): seq<string> {
    Cut(s, 0, Matches(s, 0))
  }

  /** `t` is one marker and nothing else. */
  predicate IsWholeMarker(t: string) {
    |t| >= 3 && IsMarkerAt(t, 0, |t| - 2)
  }

  /** The value of the digits of a whole marker. */
  function MarkerValue(t: string): nat
    requires IsWholeMarker(t)
  {
    MarkerDigits(t, 0, |t| - 2);
    DigitsValue(t[1..|t| - 1])
  }

  /** A piece of the split as the component shows it. */
  datatype Span = Plain(text: string) | CitationButton(number: nat, citation: Option<Citation>)

  /** `part.match(/\[(\d+)\]/)`: a button for the first marker in the part,
      resolved by `find`; otherwise the part as text. */
  function SpanOf(part: string, cits: seq<Citation>): Span {
    match FirstMarkerFrom(part, 0)
    case None => Plain(part)
    case Some(mt) =>
      MarkerDigits(part, mt.index, mt.width);
      var n := DigitsValue(part[mt.index + 1..mt.index + 1 + mt.width]);
      CitationButton(n, FindCitation(cits, n))
  }

  function CitationText(content: string, cits: seq<Citation>): (r: seq<Span>)
    ensures |r| == |SplitAtMarkers(content)|
  {
    var parts := SplitAtMarkers(content);
    seq(|parts|, i requires 0 <= i < |parts| => SpanOf(parts[i], cits))
  }

  /** The button's tooltip: the quote when resolved, else `Citation n`. */
  function ButtonTitle(b: Span): string
    requires b.CitationButton?
  {
    if b.citation.Some? then b.citation.value.quote else "Citation " + NatToString(b.number)
  }

  /** What a click alerts: `Citation n: <quote>`, only when resolved. */
  function ClickAlert(b: Span): Option<string>
    requires b.CitationButton?
  {
    if b.citation.Some? then Some("Citation " + NatToString(b.number) + ": " + b.citation.value.quote) else None
  }

  /** Joined back together, the split pieces give the content. */
  lemma SplitRoundTrip(s: string)
    ensures Join(SplitAtMarkers(s), "") == s
  {
    CutJoin(s, 0, Matches(s, 0));
  }

  lemma {:induction false} CutJoin(s: string, from: nat, ms: seq<Match>)
    requires from <= |s| && InOrder(s, from, ms)
    ensures Join(Cut(s, from, ms), "") == s[from..]
    decreases |ms|
  {
    if |ms| != 0 {
      var i, e := ms[0].index, End(ms[0]);
      var rest := Cut(s, e, ms[1..]);
      CutJoin(s, e, ms[1..]);
      var all := [s[from..i], s[i..e]] + rest;
      assert all[1..] == [s[i..e]] + rest && ([s[i..e]] + rest)[1..] == rest;
      assert Join(all, "") == s[from..i] + (s[i..e] + Join(rest, ""));
      assert s[from..] == s[from..i] + (s[i..e] + s[e..]);
    }
  }

  /** A slice in which no marker starts holds no marker. */
  lemma SliceMarkerFree(s: string, a: nat, b: nat)
    requires a <= b <= |s| && NoMarkerIn(s, a, b)
    ensures !HasMarker(s[a..b])
  {
    if HasMarker(s[a..b]) {
      var p: nat, k: nat :| IsMarkerAt(s[a..b], p, k);
      MarkerInSlice(s, a, b, p, k);
    }
  }

  /** The text of a marker of `s`, cut out, is a whole marker with the
      same digits. */
  lemma MarkerSlice(s: string, i: nat, k: nat)
    requires IsMarkerAt(s, i, k)
    ensures IsWholeMarker(s[i..i + k + 2])
    ensures AllDigits(s[i + 1..i + 1 + k]) && MarkerValue(s[i..i + k + 2]) == DigitsValue(s[i + 1..i + 1 + k])
  {
    var t := s[i..i + k + 2];
    MarkerDigits(s, i, k);
    forall j: nat | 1 <= j < 1 + k ensures DigitAt(t, j) {
      assert DigitAt(s, i + j);
    }
    assert |t| == k + 2 && t[0] == '[' && t[k + 1] == ']';
    var u, v := t[1..|t| - 1], s[i + 1..i + 1 + k];
    assert u == v by {
      forall j | 0 <= j < k ensures u[j] == v[j] {
        assert u[j] == t[1 + j] == s[i + 1 + j];
      }
    }
  }

  /** The odd-indexed pieces are exactly the whole markers, and the
      even-indexed ones hold no marker at all. */
  ghost predicate MarkersAtOddIndices(ps: seq<string>) {
    forall i :: 0 <= i < |ps| ==> (IsWholeMarker(ps[i]) <==> i % 2 == 1) && (i % 2 == 0 ==> !HasMarker(ps[i]))
  }

  /** The split alternates between marker-free text and single markers. */
  lemma SplitAlternates(s: string)
    ensures MarkersAtOddIndices(SplitAtMarkers(s))
  {
    MatchesTokenize(s, 0);
    CutAlternates(s, 0, Matches(s, 0));
  }

  lemma {:induction false} CutAlternates(s: string, from: nat, ms: seq<Match>)
    requires from <= |s| && InOrder(s, from, ms) && Tokenizes(s, from, ms)
    ensures MarkersAtOddIndices(Cut(s, from, ms))
    decreases |ms|
  {
    if |ms| == 0 {
      SliceMarkerFree(s, from, |s|);
      assert s[from..] == s[from..|s|];
      WholeMarkerHasMarker(s[from..]);
    } else {
      var i, k := ms[0].index, ms[0].width;
      var e := End(ms[0]);
      CutAlternates(s, e, ms[1..]);
      SliceMarkerFree(s, from, i);
      WholeMarkerHasMarker(s[from..i]);
      MarkerSlice(s, i, k);
      var rest := Cut(s, e, ms[1..]);
      var ps := [s[from..i], s[i..e]] + rest;
      forall j | 2 <= j < |ps|
        ensures (IsWholeMarker(ps[j]) <==> j % 2 == 1) && (j % 2 == 0 ==> !HasMarker(ps[j]))
      {
        assert j - 2 < |rest| && ps[j] == rest[j - 2] && (j - 2) % 2 == j % 2;
      }
    }
  }

  lemma WholeMarkerHasMarker(t: string)
    requires !HasMarker(t)
    ensures !IsWholeMarker(t)
  {
  }

  /** A part free of markers shows as its own text. */
  lemma SpanOfText(part: string, cits: seq<Citation>)
    requires !HasMarker(part)
    ensures SpanOf(part, cits) == Plain(part)
  {
  }

  /** A whole marker shows as the button for its value, resolved to the
      first citation with that number. */
  lemma SpanOfMarker(part: string, cits: seq<Citation>)
    requires IsWholeMarker(part)
    ensures SpanOf(part, cits) == CitationButton(MarkerValue(part), FindCitation(cits, MarkerValue(part)))
  {
    FirstMarkerIs(part, 0, 0, |part| - 2);
  }

  /** The component shows the even-indexed pieces as text and the odd ones
      as buttons, each for its marker's value, resolved to the first
      citation with that number. */
  lemma CitationTextSpans(content: string, cits: seq<Citation>)
    ensures var ps := SplitAtMarkers(content); var r := CitationText(content, cits);
      forall i :: 0 <= i < |r| ==>
        (i % 2 == 0 ==> r[i] == Plain(ps[i]))
        && (i % 2 == 1 ==> IsWholeMarker(ps[i])
                           && r[i] == CitationButton(MarkerValue(ps[i]), FindCitation(cits, MarkerValue(ps[i]))))
  {
    var ps := SplitAtMarkers(content);
    SplitAlternates(content);
    forall i | 0 <= i < |ps|
      ensures (i % 2 == 0 ==> SpanOf(ps[i], cits) == Plain(ps[i]))
              && (i % 2 == 1 ==> IsWholeMarker(ps[i])
                                 && SpanOf(ps[i], cits) == CitationButton(MarkerValue(ps[i]), FindCitation(cits, MarkerValue(ps[i]))))
    {
      if i % 2 == 0 {
        SpanOfText(ps[i], cits);
      } else {
        SpanOfMarker(ps[i], cits);
      }
    }
  }

  /** The `j`-th piece of the split is the text of the match `mt`, at an
      odd index. */
  lemma {:induction false} MatchCut(s: string, from: nat, ms: seq<Match>, mt: Match) returns (j: nat)
    requires from <= |s| && InOrder(s, from, ms) && mt in ms
    ensures IsMarkerAt(s, mt.index, mt.width)
    ensures j < |Cut(s, from, ms)| && j % 2 == 1 && Cut(s, from, ms)[j] == s[mt.index..End(mt)]
    decreases |ms|
  {
    var e := End(ms[0]);
    var rest := Cut(s, e, ms[1..]);
    assert Cut(s, from, ms) == [s[from..ms[0].index], s[ms[0].index..e]] + rest;
    if ms[0] == mt {
      j := 1;
    } else {
      assert mt in ms[1..] by {
        var i :| 0 <= i < |ms| && ms[i] == mt;
        assert ms[1..][i - 1] == mt;
      }
      var j' := MatchCut(s, e, ms[1..], mt);
      j := j' + 2;
      assert Cut(s, from, ms)[j] == rest[j'];
    }
  }

  /** Every marker of the content, wherever it is, is shown as the button
      for its value, resolved to the first citation with that number. */
  lemma MarkerShownAsButton(s: string, cits: seq<Citation>, p: nat, k: nat)
    requires IsMarkerAt(s, p, k)
    ensures AllDigits(s[p + 1..p + 1 + k])
    ensures var n := DigitsValue(s[p + 1..p + 1 + k]);
            CitationButton(n, FindCitation(cits, n)) in CitationText(s, cits)
  {
    MarkerIsMatched(s, 0, p, k);
    var j := MatchCut(s, 0, Matches(s, 0), Match(p, k));
    MarkerSlice(s, p, k);
    PieceShown(s, cits, j);
    var r := CitationText(s, cits);
    assert r[j] in r;
  }

  /** A piece of the split that is a whole marker is shown as its button. */
  lemma PieceShown(s: string, cits: seq<Citation>, j: nat)
    requires j < |SplitAtMarkers(s)| && IsWholeMarker(SplitAtMarkers(s)[j])
    ensures var part := SplitAtMarkers(s)[j];
            CitationText(s, cits)[j] == CitationButton(MarkerValue(part), FindCitation(cits, MarkerValue(part)))
  {
    SpanOfMarker(SplitAtMarkers(s)[j], cits);
  }

  /** An unresolved button is still shown, titled `Citation n`, and its
      click alerts nothing; a resolved one is titled with the quote and
      its click alerts `Citation n: <quote>`. */
  lemma ButtonBehaviour(n: nat, cits: seq<Citation>)
    ensures var b := CitationButton(n, FindCitation(cits, n));
      (ClickAlert(b).Some? <==> exists i :: 0 <= i < |cits| && cits[i].number == n)
      && ((forall i :: 0 <= i < |cits| ==> cits[i].number != n) ==> ButtonTitle(b) == "Citation " + NatToString(n))
      && (ClickAlert(b).Some? ==>
            exists i :: 0 <= i < |cits| && cits[i].number == n
              && (forall j :: 0 <= j < i ==> cits[j].number != n)
              && ButtonTitle(b) == cits[i].quote
              && ClickAlert(b) == Some("Citation " + NatToString(n) + ": " + cits[i].quote))
  {
    FindCitationSpec(cits, n);
  }
}
