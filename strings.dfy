/** The string operations of JavaScript that the components rely on, over
    `string` = `seq<char>`. */
module Strings {

  // ---------------------------------------------------------------------
  // Decimal digits: `\d`, `parseInt` and number-to-string conversion
  // ---------------------------------------------------------------------

  /** `\d` in a JavaScript regular expression: an ASCII decimal digit. */
  predicate IsDigit(c: char) { '0' <= c <= '9' }

  predicate AllDigits(s: string) {
    forall i :: 0 <= i < |s| ==> IsDigit(s[i])
  }

  function DigitChar(d: nat): (c: char)
    requires d < 10
    ensures IsDigit(c)
  {
    ('0' as int + d) as char
  }

  function DigitValue(c: char): (d: nat)
    requires IsDigit(c)
    ensures d < 10 && DigitChar(d) == c
  {
    (c as int - '0' as int) as nat
  }

  /** `parseInt(s)` for a non-empty run of decimal digits. */
  function DigitsValue(s: string): nat
    requires AllDigits(s)
    decreases |s|
  {
    if s == [] then 0 else 10 * DigitsValue(s[..|s| - 1]) + DigitValue(s[|s| - 1])
  }

  /** The decimal text of a natural number, as `${n}` produces it. */
  function NatToString(n: nat): (r: string)
    ensures r != [] && AllDigits(r)
    ensures n < 10 <==> |r| == 1
    ensures r[0] == '0' ==> n == 0
    decreases n
  {
    if n < 10 then [DigitChar(n)] else NatToString(n / 10) + [DigitChar(n % 10)]
  }

  /** Reading the decimal text of `n` back gives `n`. */
  lemma {:induction false} NatToStringReadsBack(n: nat)
    ensures DigitsValue(NatToString(n)) == n
    decreases n
  {
    if n >= 10 {
      var s := NatToString(n);
      assert s[..|s| - 1] == NatToString(n / 10);
      NatToStringReadsBack(n / 10);
    }
  }

  /** A leading zero does not change the value `parseInt` reads. */
  lemma {:induction false} LeadingZero(s: string)
    requires AllDigits(s)
    ensures AllDigits("0" + s) && DigitsValue("0" + s) == DigitsValue(s)
    decreases |s|
  {
    if s != [] {
      var t := "0" + s;
      assert t[..|t| - 1] == "0" + s[..|s| - 1];
      LeadingZero(s[..|s| - 1]);
    }
  }

  // ---------------------------------------------------------------------
  // Whitespace: `\s` and `String.prototype.trim`
  // ---------------------------------------------------------------------

  /** The characters `\s` matches and `trim` removes (ECMAScript WhiteSpace
      and LineTerminator). */
  predicate IsSpace(c: char) {
    c == ' ' || c == '\t' || c == '\n' || c == '\r' || c == '\U{0B}' || c == '\U{0C}'
    || c == '\U{A0}' || c == '\U{1680}' || ('\U{2000}' <= c <= '\U{200A}')
    || c == '\U{2028}' || c == '\U{2029}' || c == '\U{202F}' || c == '\U{205F}'
    || c == '\U{3000}' || c == '\U{FEFF}'
  }

  /** `!s.trim()`: the string is empty or whitespace only. */
  predicate IsBlank(s: string) {
    forall i :: 0 <= i < |s| ==> IsSpace(s[i])
  }

  // ---------------------------------------------------------------------
  // Case and substrings
  // ---------------------------------------------------------------------

  function LowerChar(c: char): char {
    if 'A' <= c <= 'Z' then (c as int + 32) as char else c
  }

  /** `s.toLowerCase()`, for the ASCII letters. */
  function Lower(s: string): (r: string)
    ensures |r| == |s|
    ensures forall i :: 0 <= i < |s| ==> r[i] == LowerChar(s[i])
  {
    seq(|s|, i requires 0 <= i < |s| => LowerChar(s[i]))
  }

  predicate OccursAt(s: string, t: string, i: nat) {
    i + |t| <= |s| && s[i..i + |t|] == t
  }

  /** `s.includes(t)`. */
  function Contains(s: string, t: string): (b: bool)
    ensures b <==> exists i: nat :: OccursAt(s, t, i)
    decreases |s|
  {
    if |t| <= |s| && s[..|t|] == t then
      assert OccursAt(s, t, 0);
      true
    else if s == [] then
      assert forall i: nat :: !OccursAt(s, t, i);
      false
    else
      var b := Contains(s[1..], t);
      assert forall i: nat :: OccursAt(s[1..], t, i) <==> OccursAt(s, t, i + 1) by {
        forall i: nat ensures OccursAt(s[1..], t, i) <==> OccursAt(s, t, i + 1) {
          if i + |t| <= |s[1..]| { assert s[1..][i..i + |t|] == s[i + 1..i + 1 + |t|]; }
        }
      }
      assert !OccursAt(s, t, 0);
      assert (exists i: nat :: OccursAt(s, t, i)) ==> exists i: nat :: OccursAt(s[1..], t, i) by {
        if exists i: nat :: OccursAt(s, t, i) {
          var i: nat :| OccursAt(s, t, i);
          assert i > 0 && OccursAt(s[1..], t, i - 1);
        }
      }
      b
  }

  /** `s.replace(t, '')` for a plain string `t`: the first occurrence of `t`
      is removed, and nothing else changes. */
  function RemoveFirst(s: string, t: string): (r: string)
    ensures Contains(s, t) ==>
              exists i: nat :: OccursAt(s, t, i) && (forall j: nat :: j < i ==> !OccursAt(s, t, j))
                               && r == s[..i] + s[i + |t|..]
    ensures !Contains(s, t) ==> r == s
    decreases |s|
  {
    if |t| <= |s| && s[..|t|] == t then
      assert OccursAt(s, t, 0) && s[..0] + s[|t|..] == s[|t|..];
      s[|t|..]
    else if s == [] then s
    else
      var rest := RemoveFirst(s[1..], t);
      assert !OccursAt(s, t, 0);
      ShiftOccurs(s, t);
      if Contains(s[1..], t) then
        var i: nat :| OccursAt(s[1..], t, i) && (forall j: nat :: j < i ==> !OccursAt(s[1..], t, j))
                      && rest == s[1..][..i] + s[1..][i + |t|..];
        LeftmostShift(s, t, i);
        [s[0]] + rest
      else
        [s[0]] + rest
  }

  /** The leftmost occurrence in `s[1..]`, when `t` does not start `s`, is
      the leftmost in `s`, and cutting it out commutes with the first
      character. */
  lemma LeftmostShift(s: string, t: string, i: nat)
    requires |s| > 0 && !OccursAt(s, t, 0)
    requires OccursAt(s[1..], t, i) && forall j: nat :: j < i ==> !OccursAt(s[1..], t, j)
    ensures OccursAt(s, t, i + 1) && forall j: nat :: j < i + 1 ==> !OccursAt(s, t, j)
    ensures [s[0]] + (s[1..][..i] + s[1..][i + |t|..]) == s[..i + 1] + s[i + 1 + |t|..]
  {
    ShiftOccurs(s, t);
    forall j: nat | j < i + 1 ensures !OccursAt(s, t, j) {
      if j > 0 { assert !OccursAt(s[1..], t, j - 1); }
    }
  }

  /** An occurrence in `s[1..]` is one in `s`, one place further on. */
  lemma ShiftOccurs(s: string, t: string)
    requires |s| > 0
    ensures forall i: nat :: OccursAt(s[1..], t, i) <==> OccursAt(s, t, i + 1)
  {
    forall i: nat ensures OccursAt(s[1..], t, i) <==> OccursAt(s, t, i + 1) {
      if i + |t| <= |s[1..]| { assert s[1..][i..i + |t|] == s[i + 1..i + 1 + |t|]; }
    }
  }

  // ---------------------------------------------------------------------
  // `String.prototype.split` on one character and `Array.prototype.join`
  // ---------------------------------------------------------------------

  /** `s.split(c)`: the pieces between occurrences of `c`; there is always at
      least one, and `c` occurs in none of them. */
  function Split(s: string, c: char): (r: seq<string>)
    ensures |r| >= 1
    ensures forall i :: 0 <= i < |r| ==> c !in r[i]
    ensures |r| == 1 <==> c !in s
    ensures c !in s ==> r == [s]
    decreases |s|
  {
    if s == [] then [[]]
    else if s[0] == c then [[]] + Split(s[1..], c)
    else
      var rest := Split(s[1..], c);
      assert s == [s[0]] + s[1..];
      [[s[0]] + rest[0]] + rest[1..]
  }

  /** The first piece is the prefix of `s` up to the first `c`. */
  lemma {:induction false} SplitFirst(s: string, c: char)
    ensures Split(s, c)[0] <= s
    ensures |Split(s, c)[0]| < |s| ==> s[|Split(s, c)[0]|] == c
    decreases |s|
  {
    if s != [] && s[0] != c {
      SplitFirst(s[1..], c);
    }
  }

  /** `parts.join(sep)`. */
  function Join(parts: seq<string>, sep: string): string
    decreases |parts|
  {
    if parts == [] then []
    else if |parts| == 1 then parts[0]
    else parts[0] + sep + Join(parts[1..], sep)
  }

  /** Splitting at one more separator splits both sides independently. */
  lemma {:induction false} SplitAround(a: string, c: char, b: string)
    ensures Split(a + [c] + b, c) == Split(a, c) + Split(b, c)
    decreases |a|
  {
    if a == [] {
      assert a + [c] + b == [c] + b;
      assert ([c] + b)[1..] == b;
    } else {
      assert (a + [c] + b)[1..] == a[1..] + [c] + b;
      SplitAround(a[1..], c, b);
    }
  }

  /** Extending the first piece extends the joined string at its front. */
  lemma JoinExtendFirst(x: string, parts: seq<string>, sep: string)
    requires parts != []
    ensures Join([x + parts[0]] + parts[1..], sep) == x + Join(parts, sep)
  {
    var ps := [x + parts[0]] + parts[1..];
    if |parts| > 1 {
      assert ps[1..] == parts[1..];
      assert Join(ps, sep) == x + parts[0] + sep + Join(parts[1..], sep);
    }
  }

  /** Joining the pieces with the separator gives back the string. */
  lemma {:induction false} JoinSplit(s: string, c: char)
    ensures Join(Split(s, c), [c]) == s
    decreases |s|
  {
    if s != [] {
      JoinSplit(s[1..], c);
      var rest := Split(s[1..], c);
      if s[0] == c {
        assert ([[]] + rest)[1..] == rest;
        assert Join([[]] + rest, [c]) == [] + [c] + Join(rest, [c]);
        assert s == [c] + s[1..];
      } else {
        JoinExtendFirst([s[0]], rest, [c]);
        assert s == [s[0]] + s[1..];
      }
    }
  }

  /** Splitting what was joined gives back the pieces, when none of them
      holds the separator. */
  lemma {:induction false} SplitJoin(parts: seq<string>, c: char)
    requires parts != []
    requires forall i :: 0 <= i < |parts| ==> c !in parts[i]
    ensures Split(Join(parts, [c]), c) == parts
    decreases |parts|
  {
    if |parts| == 1 {
    } else {
      SplitJoin(parts[1..], c);
      SplitAround(parts[0], c, Join(parts[1..], [c]));
      assert parts[0] + [c] + Join(parts[1..], [c]) == Join(parts, [c]);
      assert parts == [parts[0]] + parts[1..];
    }
  }

  /** `s.split(c).pop()`: the text after the last `c`, or all of `s`. */
  function LastSegment(s: string, c: char): (r: string)
    ensures c !in r
  {
    var parts := Split(s, c);
    parts[|parts| - 1]
  }

  /** The last segment is the suffix of `s` after its last `c`. */
  lemma {:induction false} LastSegmentIsSuffix(s: string, c: char)
    ensures |LastSegment(s, c)| <= |s|
    ensures LastSegment(s, c) == s[|s| - |LastSegment(s, c)|..]
    ensures |LastSegment(s, c)| < |s| ==> s[|s| - |LastSegment(s, c)| - 1] == c
    ensures |LastSegment(s, c)| == |s| <==> c !in s
    decreases |s|
  {
    if s != [] {
      LastSegmentIsSuffix(s[1..], c);
      var rest := Split(s[1..], c);
      var r := LastSegment(s[1..], c);
      assert s == [s[0]] + s[1..];
      if s[0] == c {
        assert LastSegment(s, c) == r;
      } else if |rest| == 1 {
        assert rest == [s[1..]];
        assert LastSegment(s, c) == s;
      } else {
        assert LastSegment(s, c) == r;
        assert c in s[1..];
      }
    }
  }

  /** After appending `c` and a segment free of `c`, that segment is last. */
  lemma LastSegmentAfter(a: string, c: char, b: string)
    requires c !in b
    ensures LastSegment(a + [c] + b, c) == b
  {
    SplitAround(a, c, b);
  }

  // ---------------------------------------------------------------------
  // `String.prototype.split(/\s+/)`
  // ---------------------------------------------------------------------

  /** `s` without its leading whitespace. */
  function DropSpaces(s: string): (r: string)
    ensures |r| <= |s| && r == s[|s| - |r|..]
    ensures r == [] || !IsSpace(r[0])
    ensures forall i :: 0 <= i < |s| - |r| ==> IsSpace(s[i])
    decreases |s|
  {
    if s != [] && IsSpace(s[0]) then DropSpaces(s[1..]) else s
  }

  /** `s.split(/\s+/)`: the pieces between maximal runs of whitespace. */
  function SplitSpaces(s: string): (r: seq<string>)
    ensures |r| >= 1
    decreases |s|
  {
    if s == [] then [[]]
    else if IsSpace(s[0]) then [[]] + SplitSpaces(DropSpaces(s[1..]))
    else
      var rest := SplitSpaces(s[1..]);
      [[s[0]] + rest[0]] + rest[1..]
  }

  /** The first piece is empty exactly when `s` is empty or starts with
      whitespace. */
  lemma SplitSpacesFirst(s: string)
    ensures SplitSpaces(s)[0] == [] <==> s == [] || IsSpace(s[0])
  {
  }

  /** A single piece is the whole string. */
  lemma {:induction false} SplitSpacesSingle(s: string)
    ensures |SplitSpaces(s)| == 1 ==> SplitSpaces(s)[0] == s
    decreases |s|
  {
    if s != [] && !IsSpace(s[0]) {
      SplitSpacesSingle(s[1..]);
      assert s == [s[0]] + s[1..];
    }
  }

  /** Only the first and the last piece can be empty. */
  lemma {:induction false} SplitSpacesInner(s: string)
    ensures forall i :: 1 <= i < |SplitSpaces(s)| - 1 ==> SplitSpaces(s)[i] != []
    decreases |s|
  {
    if s == [] {
    } else if IsSpace(s[0]) {
      var t := DropSpaces(s[1..]);
      SplitSpacesInner(t);
      SplitSpacesFirst(t);
    } else {
      SplitSpacesInner(s[1..]);
    }
  }

  /** `s` ends with whitespace. */
  predicate EndsWithSpace(s: string) {
    s != [] && IsSpace(s[|s| - 1])
  }

  /** The last piece is empty, and is not also the first. */
  predicate EmptyLastPiece(s: string) {
    var r := SplitSpaces(s);
    |r| > 1 && r[|r| - 1] == []
  }

  lemma LastAfterLeadingSpace(s: string)
    requires s != [] && IsSpace(s[0])
    ensures DropSpaces(s[1..]) == [] ==> EmptyLastPiece(s) && EndsWithSpace(s)
    ensures DropSpaces(s[1..]) != [] ==>
              EndsWithSpace(s) == EndsWithSpace(DropSpaces(s[1..]))
  {
    var t := DropSpaces(s[1..]);
    if t != [] {
      assert s[|s| - 1] == t[|t| - 1];
    }
  }

  lemma LastPieceAfterLeadingSpace(s: string)
    requires s != [] && IsSpace(s[0]) && DropSpaces(s[1..]) != []
    ensures EmptyLastPiece(s) == EmptyLastPiece(DropSpaces(s[1..]))
  {
    SplitSpacesSingle(DropSpaces(s[1..]));
  }

  lemma LastAfterWordChar(s: string)
    requires s != [] && !IsSpace(s[0])
    ensures s[1..] == [] ==> !EmptyLastPiece(s) && !EndsWithSpace(s)
    ensures s[1..] != [] ==>
              EmptyLastPiece(s) == EmptyLastPiece(s[1..]) && EndsWithSpace(s) == EndsWithSpace(s[1..])
  {
    if s[1..] != [] {
      assert s[|s| - 1] == s[1..][|s[1..]| - 1];
    }
  }

  /** The last piece, when it is not also the first, is empty exactly when
      `s` ends with whitespace. */
  lemma {:induction false} SplitSpacesLast(s: string)
    ensures EmptyLastPiece(s) <==> EndsWithSpace(s)
    decreases |s|
  {
    if s == [] {
    } else if IsSpace(s[0]) {
      LastAfterLeadingSpace(s);
      if DropSpaces(s[1..]) != [] {
        LastPieceAfterLeadingSpace(s);
        SplitSpacesLast(DropSpaces(s[1..]));
      }
    } else {
      LastAfterWordChar(s);
      if s[1..] != [] {
        SplitSpacesLast(s[1..]);
      }
    }
  }
  /** `s` with every whitespace character removed. */
  function Unspaced(s: string): string
    decreases |s|
  {
    if s == [] then []
    else (if IsSpace(s[0]) then [] else [s[0]]) + Unspaced(s[1..])
  }

  /** No piece of the split holds whitespace. */
  lemma {:induction false} SplitSpacesNoSpace(s: string)
    ensures forall k, j :: 0 <= k < |SplitSpaces(s)| && 0 <= j < |SplitSpaces(s)[k]| ==>
              !IsSpace(SplitSpaces(s)[k][j])
    decreases |s|
  {
    if s == [] {
    } else if IsSpace(s[0]) {
      SplitSpacesNoSpace(DropSpaces(s[1..]));
    } else {
      var rest := SplitSpaces(s[1..]);
      SplitSpacesNoSpace(s[1..]);
      var r := SplitSpaces(s);
      assert r == [[s[0]] + rest[0]] + rest[1..];
      forall k, j | 0 <= k < |r| && 0 <= j < |r[k]| ensures !IsSpace(r[k][j]) {
        if k == 0 {
          if j > 0 { assert r[0][j] == rest[0][j - 1]; }
        } else {
          assert r[k] == rest[k];
        }
      }
    }
  }

  /** The pieces of the split, joined, give `s` without its whitespace. */
  lemma {:induction false} SplitSpacesJoin(s: string)
    ensures Join(SplitSpaces(s), "") == Unspaced(s)
    decreases |s|
  {
    if s == [] {
    } else if IsSpace(s[0]) {
      var t := DropSpaces(s[1..]);
      SplitSpacesJoin(t);
      DropSpacesUnspaced(s[1..]);
      JoinEmptyFirst(SplitSpaces(t));
    } else {
      var rest := SplitSpaces(s[1..]);
      SplitSpacesJoin(s[1..]);
      JoinPrepend([s[0]], rest);
    }
  }

  /** Leading whitespace adds nothing once whitespace is removed. */
  lemma {:induction false} DropSpacesUnspaced(s: string)
    ensures Unspaced(DropSpaces(s)) == Unspaced(s)
    decreases |s|
  {
    if s != [] && IsSpace(s[0]) {
      DropSpacesUnspaced(s[1..]);
    }
  }

  /** An empty first piece adds nothing to the join. */
  lemma JoinEmptyFirst(parts: seq<string>)
    requires |parts| >= 1
    ensures Join([[]] + parts, "") == Join(parts, "")
  {
    assert ([[]] + parts)[1..] == parts;
  }

  /** Prefixing the first piece prefixes the join. */
  lemma {:induction false} JoinPrepend(a: string, parts: seq<string>)
    requires |parts| >= 1
    ensures Join([a + parts[0]] + parts[1..], "") == a + Join(parts, "")
  {
    var q := [a + parts[0]] + parts[1..];
    var p0 := parts[0];
    if |parts| > 1 {
      var tail := Join(parts[1..], "");
      assert q[1..] == parts[1..];
      assert Join(q, "") == (a + p0) + "" + tail;
      assert Join(parts, "") == p0 + "" + tail;
      assert (a + p0) + "" + tail == a + (p0 + "" + tail);
    }
  }
}
