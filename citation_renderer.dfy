/** The citation-aware message renderer: assistant text is scanned left to
    right for markers `[digits]`; the text between markers and each marker
    become pieces, and every marker is resolved against the message's
    citations (first citation with the same number), or left unresolved and
    still rendered, as a disabled link. */
module CitationRenderer {
  import opened Wrappers
  import opened Strings
  import opened Types

  // ---------------------------------------------------------------------
  // Markers: the regular expression /\[(\d+)\]/
  // ---------------------------------------------------------------------

  /** Position `j` of `s` holds a decimal digit. */
  predicate DigitAt(s: string, j: nat) {
    j < |s| && IsDigit(s[j])
  }

  /** Every position of `s` in `[a, b)` holds a decimal digit. */
  predicate DigitsIn(s: string, a: nat, b: nat) {
    forall j: nat :: a <= j < b ==> DigitAt(s, j)
  }

  /** A marker with `k` digits starts at position `p` of `s`. */
  predicate IsMarkerAt(s: string, p: nat, k: nat) {
    1 <= k && p + k + 2 <= |s| && s[p] == '[' && DigitsIn(s, p + 1, p + 1 + k) && s[p + 1 + k] == ']'
  }

  /** No marker starts at a position in `[from, to)`. */
  ghost predicate NoMarkerIn(s: string, from: nat, to: nat) {
    forall p: nat, k: nat :: from <= p < to ==> !IsMarkerAt(s, p, k)
  }

  ghost predicate HasMarker(s: string) {
    exists p: nat, k: nat :: IsMarkerAt(s, p, k)
  }

  /** The length of the run of digits starting at `i` (the greedy `\d+`). */
  function DigitRun(s: string, i: nat): (n: nat)
    requires i <= |s|
    ensures i + n <= |s|
    decreases |s| - i
  {
    if i < |s| && IsDigit(s[i]) then 1 + DigitRun(s, i + 1) else 0
  }

  /** The run is made of digits and is maximal. */
  lemma {:induction false} DigitRunSpec(s: string, i: nat)
    requires i <= |s|
    ensures DigitsIn(s, i, i + DigitRun(s, i))
    ensures !DigitAt(s, i + DigitRun(s, i))
    decreases |s| - i
  {
    if i < |s| && IsDigit(s[i]) {
      DigitRunSpec(s, i + 1);
    }
  }

  /** The number of digits of the marker starting at `p`, if one does. */
  function MarkerAt(s: string, p: nat): (m: Option<nat>)
    ensures m.Some? ==> IsMarkerAt(s, p, m.value)
  {
    if p < |s| && s[p] == '[' then
      var run := DigitRun(s, p + 1);
      DigitRunSpec(s, p + 1);
      if 1 <= run && p + 1 + run < |s| && s[p + 1 + run] == ']' then Some(run) else None
    else None
  }

  /** `MarkerAt` finds every marker, with its full digit count: `\d+` is
      greedy and the digits must be followed by `]`. */
  lemma MarkerAtComplete(s: string, p: nat, k: nat)
    requires IsMarkerAt(s, p, k)
    ensures MarkerAt(s, p) == Some(k)
  {
    DigitRunSpec(s, p + 1);
    assert !DigitAt(s, p + 1 + k);
  }

  /** Whether a marker starts at `i` depends only on the text from `i` on. */
  lemma MarkerAtSuffix(s: string, i: nat)
    requires i <= |s|
    ensures MarkerAt(s[i..], 0) == MarkerAt(s, i)
  {
    var t := s[i..];
    forall k: nat ensures IsMarkerAt(t, 0, k) <==> IsMarkerAt(s, i, k) {
      if 1 <= k && k + 2 <= |t| {
        assert t[0] == s[i] && t[1 + k] == s[i + 1 + k];
        if DigitsIn(t, 1, 1 + k) {
          forall j: nat | i + 1 <= j < i + 1 + k ensures DigitAt(s, j) {
            assert DigitAt(t, j - i) && t[j - i] == s[j];
          }
        }
        if DigitsIn(s, i + 1, i + 1 + k) {
          forall j: nat | 1 <= j < 1 + k ensures DigitAt(t, j) {
            assert DigitAt(s, i + j) && t[j] == s[i + j];
          }
        }
      }
    }
    if MarkerAt(t, 0).Some? {
      MarkerAtComplete(s, i, MarkerAt(t, 0).value);
    } else if MarkerAt(s, i).Some? {
      MarkerAtComplete(t, 0, MarkerAt(s, i).value);
    }
  }

  /** A marker inside a slice is a marker of the whole text. */
  lemma MarkerInSlice(s: string, a: nat, b: nat, p: nat, k: nat)
    requires a <= b <= |s| && IsMarkerAt(s[a..b], p, k)
    ensures a + p < b && IsMarkerAt(s, a + p, k)
  {
    var t := s[a..b];
    assert t[p] == s[a + p] && t[p + 1 + k] == s[a + p + 1 + k];
    forall j: nat | a + p + 1 <= j < a + p + 1 + k ensures DigitAt(s, j) {
      assert DigitAt(t, j - a) && s[j] == t[j - a];
    }
  }

  /** The digits of a marker, as the component slices them out. */
  lemma MarkerDigits(s: string, i: nat, k: nat)
    requires IsMarkerAt(s, i, k)
    ensures i + 1 + k < |s| && AllDigits(s[i + 1..i + 1 + k])
  {
    var d := s[i + 1..i + 1 + k];
    forall j | 0 <= j < |d| ensures IsDigit(d[j]) {
      assert DigitAt(s, i + 1 + j) && d[j] == s[i + 1 + j];
    }
  }

  /** A match of the regular expression: where it starts and its digit count. */
  datatype Match = Match(index: nat, width: nat)

  /** `pattern.exec(s)` with `lastIndex == from`: the leftmost marker that
      starts at or after `from`. */
  function FirstMarkerFrom(s: string, from: nat): (m: Option<Match>)
    requires from <= |s|
    ensures m.Some? ==> from <= m.value.index && IsMarkerAt(s, m.value.index, m.value.width)
    decreases |s| - from
  {
    if from == |s| then None
    else match MarkerAt(s, from)
      case Some(k) => Some(Match(from, k))
      case None => FirstMarkerFrom(s, from + 1)
  }

  /** The match is the leftmost marker from `from` on, and there is none
      when no marker starts there. */
  lemma {:induction false} FirstMarkerLeftmost(s: string, from: nat)
    requires from <= |s|
    ensures FirstMarkerFrom(s, from).None? ==> NoMarkerIn(s, from, |s|)
    ensures FirstMarkerFrom(s, from).Some? ==> NoMarkerIn(s, from, FirstMarkerFrom(s, from).value.index)
    decreases |s| - from
  {
    if from < |s| {
      if MarkerAt(s, from).None? {
        FirstMarkerLeftmost(s, from + 1);
        forall k: nat ensures !IsMarkerAt(s, from, k) {
          if IsMarkerAt(s, from, k) {
            MarkerAtComplete(s, from, k);
          }
        }
      }
    }
  }

  // ---------------------------------------------------------------------
  // Resolution: `citations.find(c => c.number === n)`
  // ---------------------------------------------------------------------

  /** The position of the first citation in list order whose number is `n`. */
  function CitationIndex(cits: seq<Citation>, n: nat): (r: Option<nat>)
    ensures r.Some? ==> r.value < |cits| && cits[r.value].number == n
    decreases |cits|
  {
    if cits == [] then None
    else if cits[0].number == n then Some(0)
    else match CitationIndex(cits[1..], n)
      case None => None
      case Some(i) => Some(i + 1)
  }

  /** `find` fails exactly when no citation has the number, and otherwise
      stops at the first one that has it. */
  lemma {:induction false} CitationIndexSpec(cits: seq<Citation>, n: nat)
    ensures CitationIndex(cits, n).None? <==> forall i :: 0 <= i < |cits| ==> cits[i].number != n
    ensures CitationIndex(cits, n).Some? ==>
              forall j :: 0 <= j < CitationIndex(cits, n).value ==> cits[j].number != n
    decreases |cits|
  {
    if cits != [] && cits[0].number != n {
      CitationIndexSpec(cits[1..], n);
      assert forall i :: 1 <= i < |cits| ==> cits[i] == cits[1..][i - 1];
    }
  }

  /** The citation a marker with value `n` resolves to: the first one with
      that number, or none. */
  function FindCitation(cits: seq<Citation>, n: nat): (r: Option<Citation>)
    ensures r.Some? ==> r.value.number == n
  {
    match CitationIndex(cits, n)
    case None => None
    case Some(i) => Some(cits[i])
  }

  /** A marker resolves exactly when some citation carries its number, and
      then to the first such citation in list order. */
  lemma FindCitationSpec(cits: seq<Citation>, n: nat)
    ensures FindCitation(cits, n).None? <==> forall i :: 0 <= i < |cits| ==> cits[i].number != n
    ensures FindCitation(cits, n).Some? ==>
              exists i :: (0 <= i < |cits| && cits[i] == FindCitation(cits, n).value
                           && forall j :: 0 <= j < i ==> cits[j].number != n)
  {
    CitationIndexSpec(cits, n);
  }

  /** The leftmost marker at or after `from` is the one at `i` when none
      starts in between. */
  lemma FirstMarkerIs(s: string, from: nat, i: nat, k: nat)
    requires from <= i && IsMarkerAt(s, i, k) && NoMarkerIn(s, from, i)
    ensures FirstMarkerFrom(s, from) == Some(Match(i, k))
  {
    var m := FirstMarkerFrom(s, from);
    FirstMarkerLeftmost(s, from);
    MarkerAtComplete(s, i, k);
    if m.Some? {
      MarkerAtComplete(s, m.value.index, m.value.width);
    }
  }

  // ---------------------------------------------------------------------
  // All matches: `exec` called again and again with the `g` flag
  // ---------------------------------------------------------------------

  /** Where a match ends, which is where the next `exec` starts looking. */
  function End(mt: Match): nat {
    mt.index + mt.width + 2
  }

  /** Every match is a marker, starting at or after the end of the one
      before it (the first at or after `from`). */
  predicate InOrder(s: string, from: nat, ms: seq<Match>)
    decreases |ms|
  {
    |ms| == 0
    || (from <= ms[0].index && IsMarkerAt(s, ms[0].index, ms[0].width) && InOrder(s, End(ms[0]), ms[1..]))
  }

  /** The matches successive `exec` calls return, from `from` on, until
      one returns `null`. */
  function Matches(s: string, from: nat): (ms: seq<Match>)
    requires from <= |s|
    ensures InOrder(s, from, ms)
    decreases |s| - from
  {
    match FirstMarkerFrom(s, from)
    case None => []
    case Some(mt) =>
      var rest := Matches(s, End(mt));
      assert ([mt] + rest)[1..] == rest;
      [mt] + rest
  }

  lemma MatchesStep(s: string, from: nat, mt: Match)
    requires from <= |s| && FirstMarkerFrom(s, from) == Some(mt)
    ensures End(mt) <= |s| && Matches(s, from) == [mt] + Matches(s, End(mt))
  {
  }

  lemma MatchesEnd(s: string, from: nat)
    requires from <= |s| && FirstMarkerFrom(s, from).None?
    ensures Matches(s, from) == []
  {
  }

  /** `ms` are the markers of `s` from `from` on, leftmost first: in order,
      with no marker starting in the text between two of them or after the
      last. */
  ghost predicate Tokenizes(s: string, from: nat, ms: seq<Match>)
    decreases |ms|
  {
    if |ms| == 0 then NoMarkerIn(s, from, |s|)
    else from <= ms[0].index && IsMarkerAt(s, ms[0].index, ms[0].width) && NoMarkerIn(s, from, ms[0].index)
         && Tokenizes(s, End(ms[0]), ms[1..])
  }

  /** The matches are the leftmost markers, one after the other. */
  lemma {:induction false} MatchesTokenize(s: string, from: nat)
    requires from <= |s|
    ensures Tokenizes(s, from, Matches(s, from))
    decreases |s| - from
  {
    FirstMarkerLeftmost(s, from);
    var m := FirstMarkerFrom(s, from);
    if m.None? {
      MatchesEnd(s, from);
    } else {
      MatchesStep(s, from, m.value);
      MatchesTokenize(s, End(m.value));
      var ms := Matches(s, from);
      assert ms[0] == m.value && ms[1..] == Matches(s, End(m.value));
    }
  }

  /** And no other sequence of matches is: the markers determine the
      matches. */
  lemma {:induction false} TokenizesUnique(s: string, from: nat, ms: seq<Match>)
    requires from <= |s| && Tokenizes(s, from, ms)
    ensures ms == Matches(s, from)
    decreases |ms|
  {
    var m := FirstMarkerFrom(s, from);
    if |ms| == 0 {
      MatchesEnd(s, from);
    } else {
      FirstMarkerIs(s, from, ms[0].index, ms[0].width);
      MatchesStep(s, from, ms[0]);
      TokenizesUnique(s, End(ms[0]), ms[1..]);
      assert ms == [ms[0]] + ms[1..];
    }
  }

  // ---------------------------------------------------------------------
  // Pieces
  // ---------------------------------------------------------------------

  /** A rendered piece: literal text, or a citation link carrying the
      marker's value, the citation it resolved to, and where the match
      starts (which goes into the link's key) and how long it is. */
  datatype Piece =
    | TextPart(text: string)
    | CitationPart(number: nat, citation: Option<Citation>, index: nat, length: nat)

  /** The text of `s` a piece stands for: its own text, or the marker a
      link was made from. */
  function Raw(s: string, p: Piece): string {
    match p
    case TextPart(t) => t
    case CitationPart(_, _, i, n) => if i + n <= |s| then s[i..i + n] else []
  }

  function Flatten(s: string, ps: seq<Piece>): string
    decreases |ps|
  {
    if |ps| == 0 then [] else Raw(s, ps[0]) + Flatten(s, ps[1..])
  }

  lemma {:induction false} FlattenAppend(s: string, a: seq<Piece>, b: seq<Piece>)
    ensures Flatten(s, a + b) == Flatten(s, a) + Flatten(s, b)
    decreases |a|
  {
    if |a| != 0 {
      assert (a + b)[0] == a[0] && (a + b)[1..] == a[1..] + b;
      FlattenAppend(s, a[1..], b);
      assert Flatten(s, a + b) == Raw(s, a[0]) + (Flatten(s, a[1..]) + Flatten(s, b));
    } else {
      assert a + b == b;
    }
  }

  /** The link for the marker with `k` digits at `i`: `parseInt` of the
      digits, and the citation with that number. */
  function LinkAt(s: string, i: nat, k: nat, cits: seq<Citation>): Piece
    requires IsMarkerAt(s, i, k)
  {
    MarkerDigits(s, i, k);
    var n := DigitsValue(s[i + 1..i + 1 + k]);
    CitationPart(n, FindCitation(cits, n), i, k + 2)
  }

  /** The pending text `s[start..i]`, if it is not empty. */
  function TextBefore(s: string, start: nat, i: nat): seq<Piece>
    requires start <= i <= |s|
  {
    if start < i then [TextPart(s[start..i])] else []
  }

  /** The pieces for matches `ms` from `from` on: for each match the text
      before it, if any, and its link; then the text after the last. */
  function Build(s: string, cits: seq<Citation>, from: nat, ms: seq<Match>): seq<Piece>
    requires from <= |s| && InOrder(s, from, ms)
    decreases |ms|
  {
    if |ms| == 0 then TextBefore(s, from, |s|)
    else TextBefore(s, from, ms[0].index) + [LinkAt(s, ms[0].index, ms[0].width, cits)]
         + Build(s, cits, End(ms[0]), ms[1..])
  }

  /** The pieces the renderer produces for a message. */
  function Render(s: string, cits: seq<Citation>): seq<Piece> {
    Build(s, cits, 0, Matches(s, 0))
  }

  /** The pieces at a match: the pending text, the link, then the rest. */
  lemma BuildAtMatch(s: string, cits: seq<Citation>, from: nat, mt: Match)
    requires from <= |s| && FirstMarkerFrom(s, from) == Some(mt)
    ensures End(mt) <= |s| && IsMarkerAt(s, mt.index, mt.width)
    ensures Build(s, cits, from, Matches(s, from))
            == TextBefore(s, from, mt.index) + [LinkAt(s, mt.index, mt.width, cits)]
               + Build(s, cits, End(mt), Matches(s, End(mt)))
  {
    MatchesStep(s, from, mt);
    var ms := Matches(s, from);
    assert ms[0] == mt && ms[1..] == Matches(s, End(mt));
  }

  /** The pieces with no match left: the remaining text, if any. */
  lemma BuildAtEnd(s: string, cits: seq<Citation>, from: nat)
    requires from <= |s| && FirstMarkerFrom(s, from).None?
    ensures Build(s, cits, from, Matches(s, from)) == TextBefore(s, from, |s|)
  {
    MatchesEnd(s, from);
  }

  // ---------------------------------------------------------------------
  // The renderer as the component runs it
  // ---------------------------------------------------------------------

  /** What the component renders: the pieces, or the content itself when
      the scan produced no piece. */
  datatype Rendered = Pieces(parts: seq<Piece>) | Unprocessed(content: string)

  /** The `while ((match = pattern.exec(content)) !== null)` loop of the
      component: each match pushes the text before it and its link. */
  method ProcessCitations(content: string, citations: seq<Citation>) returns (r: Rendered)
    ensures Render(content, citations) != [] ==> r == Pieces(Render(content, citations))
    ensures Render(content, citations) == [] ==> r == Unprocessed(content)
  {
    var parts: seq<Piece> := [];
    var lastIndex: nat := 0;
    var m := FirstMarkerFrom(content, lastIndex);
    while m.Some?
      invariant lastIndex <= |content|
      invariant m == FirstMarkerFrom(content, lastIndex)
      invariant parts + Build(content, citations, lastIndex, Matches(content, lastIndex)) == Render(content, citations)
      decreases |content| - lastIndex
    {
      parts, lastIndex := Advance(content, citations, parts, lastIndex, m.value);
      m := FirstMarkerFrom(content, lastIndex);
    }
    BuildAtEnd(content, citations, lastIndex);
    parts := PushRest(content, parts, lastIndex);
    r := if |parts| > 0 then Pieces(parts) else Unprocessed(content);
  }

  /** One turn of the loop, from `lastIndex` to just past the match. */
  method Advance(content: string, citations: seq<Citation>, parts: seq<Piece>, lastIndex: nat, mt: Match)
    returns (parts': seq<Piece>, lastIndex': nat)
    requires lastIndex <= |content| && FirstMarkerFrom(content, lastIndex) == Some(mt)
    requires parts + Build(content, citations, lastIndex, Matches(content, lastIndex)) == Render(content, citations)
    ensures lastIndex < lastIndex' <= |content|
    ensures parts' + Build(content, citations, lastIndex', Matches(content, lastIndex')) == Render(content, citations)
  {
    BuildAtMatch(content, citations, lastIndex, mt);
    parts' := PushMatch(content, citations, parts, lastIndex, mt.index, mt.width);
    lastIndex' := End(mt);
    Regroup(parts, TextBefore(content, lastIndex, mt.index), [LinkAt(content, mt.index, mt.width, citations)],
            Build(content, citations, lastIndex', Matches(content, lastIndex')));
  }

  /** The text since the previous match, when there is some, then the
      link with the parsed number and the citation found for it. */
  method PushMatch(content: string, citations: seq<Citation>, parts: seq<Piece>, lastIndex: nat, index: nat, width: nat)
    returns (parts': seq<Piece>)
    requires lastIndex <= index && IsMarkerAt(content, index, width)
    ensures parts' == parts + TextBefore(content, lastIndex, index) + [LinkAt(content, index, width, citations)]
  {
    MarkerDigits(content, index, width);
    parts' := parts;
    if index > lastIndex {
      parts' := parts' + [TextPart(content[lastIndex..index])];
    }
    var number := DigitsValue(content[index + 1..index + 1 + width]);
    parts' := parts' + [CitationPart(number, FindCitation(citations, number), index, width + 2)];
  }

  /** After the last match: the remaining text, when there is some. */
  method PushRest(content: string, parts: seq<Piece>, lastIndex: nat) returns (parts': seq<Piece>)
    requires lastIndex <= |content|
    ensures parts' == parts + TextBefore(content, lastIndex, |content|)
  {
    parts' := parts;
    if lastIndex < |content| {
      assert content[lastIndex..] == content[lastIndex..|content|];
      parts' := parts' + [TextPart(content[lastIndex..])];
    }
  }

  lemma Regroup(a: seq<Piece>, b: seq<Piece>, c: seq<Piece>, d: seq<Piece>)
    ensures a + (b + c + d) == (a + b + c) + d
  {
  }

  // ---------------------------------------------------------------------
  // Properties of the pieces
  // ---------------------------------------------------------------------

  /** Round trip: the pieces, each written back as the text of the message
      it stands for, reproduce the message exactly. */
  lemma RenderRoundTrip(s: string, cits: seq<Citation>)
    ensures Flatten(s, Render(s, cits)) == s
  {
    BuildFlatten(s, cits, 0, Matches(s, 0));
  }

  lemma {:induction false} BuildFlatten(s: string, cits: seq<Citation>, from: nat, ms: seq<Match>)
    requires from <= |s| && InOrder(s, from, ms)
    ensures Flatten(s, Build(s, cits, from, ms)) == s[from..]
    decreases |ms|
  {
    if |ms| == 0 {
      FlattenTextBefore(s, from, |s|);
    } else {
      BuildFlatten(s, cits, End(ms[0]), ms[1..]);
      FlattenStep(s, cits, from, ms[0].index, ms[0].width, Build(s, cits, End(ms[0]), ms[1..]));
    }
  }

  /** The text before a marker, the marker's link and pieces that write
      back the rest write back everything from `from` on. */
  lemma FlattenStep(s: string, cits: seq<Citation>, from: nat, i: nat, k: nat, rest: seq<Piece>)
    requires from <= i && IsMarkerAt(s, i, k) && Flatten(s, rest) == s[i + k + 2..]
    ensures Flatten(s, TextBefore(s, from, i) + [LinkAt(s, i, k, cits)] + rest) == s[from..]
  {
    var pre, link := TextBefore(s, from, i), [LinkAt(s, i, k, cits)];
    FlattenTextBefore(s, from, i);
    FlattenLink(s, i, k, cits);
    FlattenJoin(s, from, i, i + k + 2, pre, link, rest);
  }

  /** Three runs of pieces that write back three consecutive slices write
      back their union. */
  lemma FlattenJoin(s: string, a: nat, b: nat, c: nat, x: seq<Piece>, y: seq<Piece>, z: seq<Piece>)
    requires a <= b <= c <= |s|
    requires Flatten(s, x) == s[a..b] && Flatten(s, y) == s[b..c] && Flatten(s, z) == s[c..]
    ensures Flatten(s, x + y + z) == s[a..]
  {
    FlattenAppend(s, x, y);
    FlattenAppend(s, x + y, z);
    SliceThree(s, a, b, c);
  }

  lemma SliceThree(s: string, a: nat, b: nat, c: nat)
    requires a <= b <= c <= |s|
    ensures s[a..] == s[a..b] + s[b..c] + s[c..]
  {
  }

  lemma FlattenTextBefore(s: string, from: nat, i: nat)
    requires from <= i <= |s|
    ensures Flatten(s, TextBefore(s, from, i)) == s[from..i]
  {
  }

  /** A link is written back as the marker it was found as. */
  lemma FlattenLink(s: string, i: nat, k: nat, cits: seq<Citation>)
    requires IsMarkerAt(s, i, k)
    ensures Flatten(s, [LinkAt(s, i, k, cits)]) == s[i..i + k + 2]
  {
    assert Raw(s, LinkAt(s, i, k, cits)) == s[i..i + k + 2];
  }

  /** Every text piece is non-empty and holds no marker. */
  ghost predicate TextPartsClean(ps: seq<Piece>) {
    forall i :: 0 <= i < |ps| && ps[i].TextPart? ==> ps[i].text != [] && !HasMarker(ps[i].text)
  }

  /** Every link covers a marker of `s` and is the link for that marker:
      the value of its digits and the first citation with that number (or
      none). */
  ghost predicate LinksResolved(ps: seq<Piece>, s: string, cits: seq<Citation>) {
    forall i :: 0 <= i < |ps| && ps[i].CitationPart? ==>
      2 <= ps[i].length && IsMarkerAt(s, ps[i].index, ps[i].length - 2)
      && ps[i] == LinkAt(s, ps[i].index, ps[i].length - 2, cits)
  }

  /** Two text pieces are never adjacent. */
  ghost predicate NoAdjacentText(ps: seq<Piece>) {
    forall i :: 0 <= i < |ps| - 1 ==> !(ps[i].TextPart? && ps[i + 1].TextPart?)
  }

  /** The pieces are a tokenization of the message into maximal marker-free
      text runs and resolved markers. */
  lemma RenderWellFormed(s: string, cits: seq<Citation>)
    ensures TextPartsClean(Render(s, cits))
    ensures LinksResolved(Render(s, cits), s, cits)
    ensures NoAdjacentText(Render(s, cits))
  {
    MatchesTokenize(s, 0);
    BuildWellFormed(s, cits, 0, Matches(s, 0));
  }

  lemma {:induction false} BuildWellFormed(s: string, cits: seq<Citation>, from: nat, ms: seq<Match>)
    requires from <= |s| && InOrder(s, from, ms) && Tokenizes(s, from, ms)
    ensures TextPartsClean(Build(s, cits, from, ms))
    ensures LinksResolved(Build(s, cits, from, ms), s, cits)
    ensures NoAdjacentText(Build(s, cits, from, ms))
    decreases |ms|
  {
    if |ms| == 0 {
      TextBeforeClean(s, from, |s|);
    } else {
      var i, k := ms[0].index, ms[0].width;
      TextBeforeClean(s, from, i);
      BuildWellFormed(s, cits, End(ms[0]), ms[1..]);
      LinkResolved(s, i, k, cits);
      WellFormedStep(s, TextBefore(s, from, i), LinkAt(s, i, k, cits), Build(s, cits, End(ms[0]), ms[1..]), cits);
    }
  }

  /** The link for a marker records where the marker is and how long. */
  lemma LinkResolved(s: string, i: nat, k: nat, cits: seq<Citation>)
    requires IsMarkerAt(s, i, k)
    ensures LinkAt(s, i, k, cits).CitationPart? && LinksResolved([LinkAt(s, i, k, cits)], s, cits)
  {
  }

  lemma WellFormedStep(s: string, pre: seq<Piece>, link: Piece, rest: seq<Piece>, cits: seq<Citation>)
    requires |pre| <= 1 && TextPartsClean(pre) && (pre != [] ==> pre[0].TextPart?)
    requires link.CitationPart? && LinksResolved([link], s, cits)
    requires TextPartsClean(rest) && LinksResolved(rest, s, cits) && NoAdjacentText(rest)
    ensures TextPartsClean(pre + [link] + rest)
    ensures LinksResolved(pre + [link] + rest, s, cits)
    ensures NoAdjacentText(pre + [link] + rest)
  {
    assert pre + [link] + rest == pre + ([link] + rest);
    CleanStep([link], rest);
    ResolvedStep(s, [link], rest, cits);
    CleanStep(pre, [link] + rest);
    ResolvedStep(s, pre, [link] + rest, cits);
    AdjacentStep(pre, link, rest);
  }

  lemma AdjacentStep(pre: seq<Piece>, link: Piece, rest: seq<Piece>)
    requires |pre| <= 1 && link.CitationPart? && NoAdjacentText(rest)
    ensures NoAdjacentText(pre + [link] + rest)
  {
    var all := pre + [link] + rest;
    forall i | 0 <= i < |all| - 1 ensures !(all[i].TextPart? && all[i + 1].TextPart?) {
      if i >= |pre| + 1 {
        assert all[i] == rest[i - |pre| - 1] && all[i + 1] == rest[i - |pre|];
      }
    }
  }

  lemma CleanStep(a: seq<Piece>, b: seq<Piece>)
    requires TextPartsClean(a) && TextPartsClean(b)
    ensures TextPartsClean(a + b)
  {
    forall i | 0 <= i < |a + b| && (a + b)[i].TextPart?
      ensures (a + b)[i].text != [] && !HasMarker((a + b)[i].text)
    {
      if i >= |a| {
        assert (a + b)[i] == b[i - |a|];
      }
    }
  }

  lemma ResolvedStep(s: string, a: seq<Piece>, b: seq<Piece>, cits: seq<Citation>)
    requires LinksResolved(a, s, cits) && LinksResolved(b, s, cits)
    ensures LinksResolved(a + b, s, cits)
  {
    forall i | 0 <= i < |a + b| && (a + b)[i].CitationPart?
      ensures 2 <= (a + b)[i].length && IsMarkerAt(s, (a + b)[i].index, (a + b)[i].length - 2)
              && (a + b)[i] == LinkAt(s, (a + b)[i].index, (a + b)[i].length - 2, cits)
    {
      if i >= |a| {
        assert (a + b)[i] == b[i - |a|];
      }
    }
  }

  lemma TextBeforeClean(s: string, start: nat, i: nat)
    requires start <= i <= |s| && NoMarkerIn(s, start, i)
    ensures TextPartsClean(TextBefore(s, start, i))
  {
    if start < i && HasMarker(s[start..i]) {
      var p: nat, k: nat :| IsMarkerAt(s[start..i], p, k);
      MarkerInSlice(s, start, i, p, k);
    }
  }

  /** The message is empty exactly when there is no piece; so the component
      hands back the raw content only for the empty message. */
  lemma RenderEmptyIff(s: string, cits: seq<Citation>)
    ensures Render(s, cits) == [] <==> s == []
  {
    RenderRoundTrip(s, cits);
  }

  /** A message without markers renders as one text piece, or none when
      it is empty. */
  lemma RenderMarkerFree(s: string, cits: seq<Citation>)
    requires !HasMarker(s)
    ensures Render(s, cits) == if s == [] then [] else [TextPart(s)]
  {
    assert FirstMarkerFrom(s, 0).None?;
    BuildAtEnd(s, cits, 0);
    assert s[0..|s|] == s;
  }

  // ---------------------------------------------------------------------
  // Totality: one link per marker
  // ---------------------------------------------------------------------

  /** The number of markers found examining the text one position at a
      time, skipping past each marker found. */
  function MarkerCount(s: string): nat
    decreases |s|
  {
    if |s| == 0 then 0
    else match MarkerAt(s, 0)
      case Some(k) => 1 + MarkerCount(s[k + 2..])
      case None => MarkerCount(s[1..])
  }

  /** Positions where no marker starts do not change the count. */
  lemma {:induction false} MarkerCountSkips(s: string, i: nat, j: nat)
    requires i <= j <= |s| && NoMarkerIn(s, i, j)
    ensures MarkerCount(s[i..]) == MarkerCount(s[j..])
    decreases j - i
  {
    if i < j {
      MarkerAtSuffix(s, i);
      assert MarkerAt(s, i).None?;
      assert s[i..][1..] == s[i + 1..];
      MarkerCountSkips(s, i + 1, j);
    }
  }

  /** A marker at `i` counts once, and the count goes on after it. */
  lemma MarkerCountAt(s: string, i: nat, k: nat)
    requires IsMarkerAt(s, i, k)
    ensures MarkerCount(s[i..]) == 1 + MarkerCount(s[i + k + 2..])
  {
    MarkerAtSuffix(s, i);
    MarkerAtComplete(s, i, k);
    assert s[i..][k + 2..] == s[i + k + 2..];
  }

  /** `exec` finds every marker: one match per marker counted. */
  lemma {:induction false} MatchesCount(s: string, from: nat)
    requires from <= |s|
    ensures |Matches(s, from)| == MarkerCount(s[from..])
    decreases |s| - from
  {
    var m := FirstMarkerFrom(s, from);
    FirstMarkerLeftmost(s, from);
    if m.None? {
      MatchesEnd(s, from);
      MarkerCountSkips(s, from, |s|);
    } else {
      MatchesStep(s, from, m.value);
      MarkerCountSkips(s, from, m.value.index);
      MarkerCountAt(s, m.value.index, m.value.width);
      MatchesCount(s, End(m.value));
    }
  }

  function LinkCount(ps: seq<Piece>): nat
    decreases |ps|
  {
    if |ps| == 0 then 0 else (if ps[0].CitationPart? then 1 else 0) + LinkCount(ps[1..])
  }

  lemma {:induction false} LinkCountAppend(a: seq<Piece>, b: seq<Piece>)
    ensures LinkCount(a + b) == LinkCount(a) + LinkCount(b)
    decreases |a|
  {
    if |a| != 0 {
      assert (a + b)[0] == a[0] && (a + b)[1..] == a[1..] + b;
      LinkCountAppend(a[1..], b);
    } else {
      assert a + b == b;
    }
  }

  /** Every marker yields exactly one link, and nothing else does. */
  lemma RenderOneLinkPerMarker(s: string, cits: seq<Citation>)
    ensures LinkCount(Render(s, cits)) == MarkerCount(s)
  {
    BuildLinkCount(s, cits, 0, Matches(s, 0));
    MatchesCount(s, 0);
    assert s[0..] == s;
  }

  /** One link per match. */
  lemma {:induction false} BuildLinkCount(s: string, cits: seq<Citation>, from: nat, ms: seq<Match>)
    requires from <= |s| && InOrder(s, from, ms)
    ensures LinkCount(Build(s, cits, from, ms)) == |ms|
    decreases |ms|
  {
    if |ms| == 0 {
      TextBeforeLinkCount(s, from, |s|);
    } else {
      BuildLinkCount(s, cits, End(ms[0]), ms[1..]);
      TextBeforeLinkCount(s, from, ms[0].index);
      LinkCountStep(TextBefore(s, from, ms[0].index), LinkAt(s, ms[0].index, ms[0].width, cits),
                    Build(s, cits, End(ms[0]), ms[1..]));
    }
  }

  lemma TextBeforeLinkCount(s: string, start: nat, i: nat)
    requires start <= i <= |s|
    ensures LinkCount(TextBefore(s, start, i)) == 0
  {
  }

  lemma LinkCountStep(pre: seq<Piece>, link: Piece, rest: seq<Piece>)
    requires LinkCount(pre) == 0 && link.CitationPart?
    ensures LinkCount(pre + [link] + rest) == 1 + LinkCount(rest)
  {
    LinkCountAppend(pre, [link]);
    LinkCountAppend(pre + [link], rest);
  }

  /** Two markers never overlap: the later one starts after the earlier
      one ends, since a `[` is neither a digit nor a `]`. */
  lemma MarkersDisjoint(s: string, a: nat, k1: nat, b: nat, k2: nat)
    requires IsMarkerAt(s, a, k1) && IsMarkerAt(s, b, k2) && a < b
    ensures a + k1 + 2 <= b
  {
    assert !DigitAt(s, b);
  }

  /** `exec` misses no marker: every marker from `from` on is a match. */
  lemma {:induction false} MarkerIsMatched(s: string, from: nat, p: nat, k: nat)
    requires from <= p && IsMarkerAt(s, p, k)
    ensures Match(p, k) in Matches(s, from)
    decreases |s| - from
  {
    FirstMarkerLeftmost(s, from);
    assert FirstMarkerFrom(s, from).Some?;
    var mt := FirstMarkerFrom(s, from).value;
    MatchesStep(s, from, mt);
    if mt.index == p {
      MarkerAtComplete(s, p, k);
      MarkerAtComplete(s, p, mt.width);
    } else {
      MarkersDisjoint(s, mt.index, mt.width, p, k);
      MarkerIsMatched(s, End(mt), p, k);
    }
  }

  /** Every match gets its link. */
  lemma {:induction false} MatchLinked(s: string, cits: seq<Citation>, from: nat, ms: seq<Match>, mt: Match)
    requires from <= |s| && InOrder(s, from, ms) && mt in ms
    ensures IsMarkerAt(s, mt.index, mt.width)
    ensures LinkAt(s, mt.index, mt.width, cits) in Build(s, cits, from, ms)
    decreases |ms|
  {
    if ms[0] != mt {
      assert mt in ms[1..] by {
        var j :| 0 <= j < |ms| && ms[j] == mt;
        assert ms[1..][j - 1] == mt;
      }
      MatchLinked(s, cits, End(ms[0]), ms[1..], mt);
    }
  }

  /** Every marker of the message, wherever it is, is rendered as its
      link. */
  lemma RenderLinksEveryMarker(s: string, cits: seq<Citation>, p: nat, k: nat)
    requires IsMarkerAt(s, p, k)
    ensures LinkAt(s, p, k, cits) in Render(s, cits)
  {
    MarkerIsMatched(s, 0, p, k);
    MatchLinked(s, cits, 0, Matches(s, 0), Match(p, k));
  }

  // ---------------------------------------------------------------------
  // The citation link and its preview
  // ---------------------------------------------------------------------

  /** The accessible label of a citation link. */
  function AriaLabel(number: nat, citation: Option<Citation>): (r: string)
    ensures "Citation " <= r
  {
    "Citation " + NatToString(number) + ": "
    + (if citation.Some? then citation.value.sourceTitle else "Source not found")
  }

  /** The label reads back as the link's number followed by the source
      title, or by "Source not found" for an unresolved link. */
  lemma AriaLabelReadsBack(number: nat, citation: Option<Citation>)
    ensures var r := AriaLabel(number, citation);
            var d := NatToString(number);
            && AllDigits(r[9..9 + |d|]) && DigitsValue(r[9..9 + |d|]) == number
            && r[9 + |d|..9 + |d| + 2] == ": "
            && r[9 + |d| + 2..] == if citation.Some? then citation.value.sourceTitle else "Source not found"
  {
    var d := NatToString(number);
    var r := AriaLabel(number, citation);
    assert r[9..9 + |d|] == d;
    NatToStringReadsBack(number);
  }

  /** A citation link: a button for one marker, with a preview that opens
      on click when the marker resolved. */
  class CitationLink {
    const number: nat
    const citation: Option<Citation>
    var showPreview: bool

    /** An unresolved link never has its preview flag set. */
    ghost predicate Valid()
      reads this
    {
      showPreview ==> citation.Some?
    }

    constructor (number: nat, citation: Option<Citation>)
      ensures Valid()
      ensures this.number == number && this.citation == citation && !showPreview
    {
      this.number := number;
      this.citation := citation;
      showPreview := false;
    }

    /** The button is disabled when no citation was found. */
    function Disabled(): bool {
      citation.None?
    }

    /** The preview modal renders only with a citation and the flag set. */
    function PreviewVisible(): (b: bool)
      reads this
      ensures b ==> !Disabled()
    {
      citation.Some? && showPreview
    }

    method Click()
      requires Valid()
      modifies this
      ensures Valid()
      ensures showPreview == (old(showPreview) || citation.Some?)
      ensures !Disabled() ==> PreviewVisible()
    {
      if citation.Some? {
        showPreview := true;
      }
    }

    /** Enter and Space act as a click; other keys do nothing. */
    method KeyDown(key: string)
      requires Valid()
      modifies this
      ensures Valid()
      ensures showPreview == (old(showPreview) || ((key == "Enter" || key == " ") && citation.Some?))
    {
      if key == "Enter" || key == " " {
        Click();
      }
    }

    method ClosePreview()
      requires Valid()
      modifies this
      ensures Valid() && !showPreview && !PreviewVisible()
    {
      showPreview := false;
    }
  }

  // ---------------------------------------------------------------------
  // Worked examples
  // ---------------------------------------------------------------------

  /** Adjacent markers are two links, not one. */
  lemma AdjacentMarkers(cits: seq<Citation>)
    ensures Render("[1][2]", cits) ==
      [CitationPart(1, FindCitation(cits, 1), 0, 3), CitationPart(2, FindCitation(cits, 2), 3, 3)]
  {
    var s := "[1][2]";
    assert IsMarkerAt(s, 0, 1) && IsMarkerAt(s, 3, 1);
    FirstMarkerIs(s, 0, 0, 1);
    FirstMarkerIs(s, 3, 3, 1);
    BuildAtMatch(s, cits, 0, Match(0, 1));
    BuildAtMatch(s, cits, 3, Match(3, 1));
    BuildAtEnd(s, cits, 6);
    assert s[1..2] == "1" && s[4..5] == "2";
    assert DigitsValue("1") == 1 && DigitsValue("2") == 2;
  }

  /** A `[` followed by no digit, or by digits and no `]`, starts no link:
      it stays inside the text. */
  lemma MalformedBracketStaysText(s: string, cits: seq<Citation>, p: nat)
    requires p < |s| && s[p] == '['
    requires var run := DigitRun(s, p + 1);
             run == 0 || p + 1 + run == |s| || s[p + 1 + run] != ']'
    ensures forall i :: 0 <= i < |Render(s, cits)| ==>
              !(Render(s, cits)[i].CitationPart? && Render(s, cits)[i].index == p)
  {
    RenderWellFormed(s, cits);
    forall k: nat ensures !IsMarkerAt(s, p, k) {
      if IsMarkerAt(s, p, k) {
        MarkerAtComplete(s, p, k);
      }
    }
  }

  /** A marker with no citation is kept, unresolved, between its texts. */
  lemma UnresolvedMarker()
    ensures Render("See [5].", []) == [TextPart("See "), CitationPart(5, None, 4, 3), TextPart(".")]
  {
    var s := "See [5].";
    assert IsMarkerAt(s, 4, 1);
    assert NoMarkerIn(s, 0, 4);
    FirstMarkerIs(s, 0, 4, 1);
    BuildAtMatch(s, [], 0, Match(4, 1));
    assert MarkerAt(s, 7).None?;
    assert FirstMarkerFrom(s, 7).None?;
    BuildAtEnd(s, [], 7);
    assert s[5..6] == "5" && DigitsValue("5") == 5;
    assert s[0..4] == "See " && s[7..8] == ".";
  }
}
