/** The row of dots above the walkthrough: one per step, the current one
    highlighted, those before it dimmed and those after it grey. */
module ProgressDots {

  datatype Dot = Current | Done | Pending

  function DotAt(index: nat, current: int): Dot {
    if index == current then Current
    else if index < current then Done
    else Pending
  }

  /** `Array.from({ length: total }).map((_, index) => ...)`. */
  function Dots(total: nat, current: int): (r: seq<Dot>)
    ensures |r| == total
  {
    seq(total, i requires 0 <= i < total => DotAt(i, current))
  }

  /** Each dot is current, done or pending by where it lies relative to the
      current step. */
  lemma DotsClassify(total: nat, current: int, i: nat)
    requires i < total
    ensures Dots(total, current)[i] == Current <==> i == current
    ensures Dots(total, current)[i] == Done <==> i < current
    ensures Dots(total, current)[i] == Pending <==> i > current
  {
  }

  /** With the current step in range, exactly one dot is current and the
      dots before it are exactly the done ones. */
  lemma ExactlyOneCurrent(total: nat, current: int)
    requires 0 <= current < total
    ensures Dots(total, current)[current] == Current
    ensures forall i, j :: 0 <= i < j < total ==>
              !(Dots(total, current)[i] == Current && Dots(total, current)[j] == Current)
    ensures forall i :: 0 <= i < total ==> (Dots(total, current)[i] == Done <==> i < current)
  {
  }

  /** With the current step out of range, no dot is current. */
  lemma NoCurrentOutOfRange(total: nat, current: int)
    requires current < 0 || current >= total
    ensures Current !in Dots(total, current)
  {
  }
}
