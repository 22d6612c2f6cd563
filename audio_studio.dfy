/** The player of the audio overview: the transport (play/pause, seeking,
    the skip buttons, the end of the track), the `m:ss` clock and the
    progress bar. Times are seconds, as reals; the audio element is
    represented by whether it exists, the position the page last set on
    it, and the events it sends. */
module AudioStudio {
  import opened Strings

  /** The skip buttons move by this many seconds. */
  const SkipSeconds: real := 15.0

  function Min(a: real, b: real): real { if a <= b then a else b }
  function Max(a: real, b: real): real { if a >= b then a else b }

  /** `Math.max(0, Math.min(duration, seconds))`. */
  function Clamp(seconds: real, duration: real): (r: real)
    ensures r >= 0.0
    ensures duration >= 0.0 ==> r <= duration
    ensures 0.0 <= seconds <= duration ==> r == seconds
    ensures seconds < 0.0 ==> r == 0.0
    ensures duration >= 0.0 && seconds > duration ==> r == duration
  {
    Max(0.0, Min(duration, seconds))
  }

  /** Seeking to where a seek landed stays there. */
  lemma ClampIdempotent(seconds: real, duration: real)
    requires duration >= 0.0
    ensures Clamp(Clamp(seconds, duration), duration) == Clamp(seconds, duration)
  {
  }

  // ---------------------------------------------------------------------
  // The clock
  // ---------------------------------------------------------------------

  /** `Math.floor(seconds / 60)`. */
  function Minutes(seconds: real): (m: nat)
    requires seconds >= 0.0
  {
    (seconds / 60.0).Floor
  }

  /** `Math.floor(seconds % 60)`; on non-negative numbers JavaScript's `%`
      subtracts the whole minutes. */
  function SecondsPart(seconds: real): (s: nat)
    requires seconds >= 0.0
    ensures s < 60
  {
    (seconds - 60.0 * Minutes(seconds) as real).Floor
  }

  /** Minutes and seconds together are the whole seconds elapsed. */
  lemma MinutesAndSeconds(seconds: real)
    requires seconds >= 0.0
    ensures 60 * Minutes(seconds) + SecondsPart(seconds) == seconds.Floor
  {
    var m := Minutes(seconds);
    var rest := seconds - 60.0 * m as real;
    assert 0.0 <= rest < 60.0;
    var s := rest.Floor;
    assert (60 * m + s) as real <= seconds < (60 * m + s + 1) as real;
  }

  /** `n.toString().padStart(2, '0')`. */
  function PadTwo(n: nat): (r: string)
    ensures |r| >= 2 && AllDigits(r) && DigitsValue(r) == n
    ensures n < 100 ==> |r| == 2
  {
    NatToStringReadsBack(n);
    var digits := NatToString(n);
    if |digits| < 2 then
      LeadingZero(digits);
      "0" + digits
    else
      assert n < 100 ==> |NatToString(n / 10)| == 1;
      digits
  }

  /** `formatTime`: `m:ss`. */
  function FormatTime(seconds: real): string
    requires seconds >= 0.0
  {
    NatToString(Minutes(seconds)) + ":" + PadTwo(SecondsPart(seconds))
  }

  /** The clock reads back: the digits before the colon are the minutes,
      the two after it the seconds, and together they give the whole
      seconds elapsed. */
  lemma FormatTimeReadsBack(seconds: real)
    requires seconds >= 0.0
    ensures var r := FormatTime(seconds);
      && |r| >= 4 && r[|r| - 3] == ':'
      && AllDigits(r[..|r| - 3]) && AllDigits(r[|r| - 2..])
      && DigitsValue(r[|r| - 2..]) < 60
      && 60 * DigitsValue(r[..|r| - 3]) + DigitsValue(r[|r| - 2..]) == seconds.Floor
  {
    var m := Minutes(seconds);
    var s := SecondsPart(seconds);
    var mm := NatToString(m);
    var ss := PadTwo(s);
    var r := FormatTime(seconds);
    assert r == mm + ":" + ss;
    assert r[..|r| - 3] == mm;
    assert r[|r| - 2..] == ss;
    NatToStringReadsBack(m);
    MinutesAndSeconds(seconds);
  }

  // ---------------------------------------------------------------------
  // Progress
  // ---------------------------------------------------------------------

  /** `duration > 0 ? (currentTime / duration) * 100 : 0`. */
  function Progress(currentTime: real, duration: real): real {
    if duration > 0.0 then currentTime / duration * 100.0 else 0.0
  }

  /** Within the track the bar runs from 0 to 100, and is full exactly at
      the end; without a duration it is empty. */
  lemma ProgressBounds(currentTime: real, duration: real)
    ensures duration <= 0.0 ==> Progress(currentTime, duration) == 0.0
    ensures 0.0 <= currentTime <= duration && duration > 0.0 ==>
              0.0 <= Progress(currentTime, duration) <= 100.0
              && (Progress(currentTime, duration) == 100.0 <==> currentTime == duration)
  {
    if 0.0 <= currentTime <= duration && duration > 0.0 {
      var f := currentTime / duration;
      assert f * duration == currentTime;
      assert 0.0 <= f <= 1.0;
    }
  }

  // ---------------------------------------------------------------------
  // The player
  // ---------------------------------------------------------------------

  class Player {
    /** Whether the audio element has been created. */
    var hasElement: bool
    var isPlaying: bool
    /** The position shown, as last reported by the element. */
    var currentTime: real
    var duration: real
    /** The position the page last set on the element. */
    var elementTime: real

    ghost predicate Valid()
      reads this
    {
      duration >= 0.0 && elementTime >= 0.0
    }

    constructor()
      ensures Valid() && !hasElement && !isPlaying
      ensures currentTime == 0.0 && duration == 0.0 && elementTime == 0.0
    {
      hasElement := false;
      isPlaying := false;
      currentTime := 0.0;
      duration := 0.0;
      elementTime := 0.0;
    }

    /** The effect that creates the element for the loaded overview. */
    method AttachElement()
      requires Valid()
      modifies this
      ensures Valid() && hasElement && elementTime == 0.0
      ensures isPlaying == old(isPlaying) && currentTime == old(currentTime)
      ensures duration == old(duration)
    {
      hasElement := true;
      elementTime := 0.0;
    }

    /** `loadedmetadata`: the element's duration, or the overview's own
        when the element reports none. */
    method LoadedMetadata(reported: real, declared: real)
      requires Valid() && hasElement && reported >= 0.0 && declared >= 0.0
      modifies this
      ensures Valid()
      ensures duration == if reported != 0.0 then reported else declared
      ensures hasElement && isPlaying == old(isPlaying) && currentTime == old(currentTime)
      ensures elementTime == old(elementTime)
    {
      duration := if reported != 0.0 then reported else declared;
    }

    /** `timeupdate`: the shown position follows the element. */
    method TimeUpdate(reported: real)
      requires Valid() && hasElement
      modifies this
      ensures Valid() && currentTime == reported
      ensures hasElement && isPlaying == old(isPlaying) && duration == old(duration)
      ensures elementTime == old(elementTime)
    {
      currentTime := reported;
    }

    /** `ended`: playback stops and the shown position returns to zero. */
    method Ended()
      requires Valid() && hasElement
      modifies this
      ensures Valid() && !isPlaying && currentTime == 0.0
      ensures hasElement && duration == old(duration) && elementTime == old(elementTime)
    {
      isPlaying := false;
      currentTime := 0.0;
    }

    /** `handlePlayPause`: flips between playing and paused; nothing happens
        without an element. */
    method PlayPause()
      requires Valid()
      modifies this
      ensures Valid()
      ensures isPlaying == if old(hasElement) then !old(isPlaying) else old(isPlaying)
      ensures hasElement == old(hasElement) && currentTime == old(currentTime)
      ensures duration == old(duration) && elementTime == old(elementTime)
    {
      if !hasElement {
        return;
      }
      isPlaying := !isPlaying;
    }

    /** `handleSeek`: moves the element to the target, kept within the
        track; nothing happens without an element. */
    method Seek(seconds: real)
      requires Valid()
      modifies this
      ensures Valid()
      ensures elementTime == if old(hasElement) then Clamp(seconds, old(duration)) else old(elementTime)
      ensures old(hasElement) ==> elementTime <= duration
      ensures hasElement == old(hasElement) && isPlaying == old(isPlaying)
      ensures currentTime == old(currentTime) && duration == old(duration)
    {
      if !hasElement {
        return;
      }
      elementTime := Clamp(seconds, duration);
    }

    /** The skip-back button. */
    method SkipBack()
      requires Valid()
      modifies this
      ensures Valid()
      ensures elementTime == if old(hasElement) then Clamp(old(currentTime) - SkipSeconds, old(duration))
                             else old(elementTime)
      ensures hasElement == old(hasElement) && isPlaying == old(isPlaying)
      ensures currentTime == old(currentTime) && duration == old(duration)
    {
      Seek(currentTime - SkipSeconds);
    }

    /** The skip-forward button. */
    method SkipForward()
      requires Valid()
      modifies this
      ensures Valid()
      ensures elementTime == if old(hasElement) then Clamp(old(currentTime) + SkipSeconds, old(duration))
                             else old(elementTime)
      ensures hasElement == old(hasElement) && isPlaying == old(isPlaying)
      ensures currentTime == old(currentTime) && duration == old(duration)
    {
      Seek(currentTime + SkipSeconds);
    }

    /** A click on the progress bar, `fraction` of the way along it. */
    method SeekToFraction(fraction: real)
      requires Valid()
      modifies this
      ensures Valid()
      ensures elementTime == if old(hasElement) then Clamp(fraction * old(duration), old(duration))
                             else old(elementTime)
      ensures hasElement == old(hasElement) && isPlaying == old(isPlaying)
      ensures currentTime == old(currentTime) && duration == old(duration)
    {
      Seek(fraction * duration);
    }
  }
}
