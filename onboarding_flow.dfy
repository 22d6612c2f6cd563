/** The first-run walkthrough: a step counter moved by the next and back
    buttons, a skip button, and the screen each step shows. */
module OnboardingFlow {
  import opened Constants

  /** The index of the last step. */
  const LastStep: nat := OnboardingStepCount - 1

  /** `handleNext` on the step: forward by one, or stay on the last step
      (where the flow completes instead). */
  function StepAfterNext(step: nat): (next: nat)
    ensures step < LastStep ==> next == step + 1
    ensures step >= LastStep ==> next == step
  {
    if step < LastStep then step + 1 else step
  }

  /** Whether `handleNext` completes the flow. */
  predicate NextCompletes(step: nat) {
    !(step < LastStep)
  }

  /** `handlePrevious` on the step: back by one, or stay on the first. */
  function StepAfterPrevious(step: nat): (prev: nat)
    ensures step > 0 ==> prev == step - 1
    ensures step == 0 ==> prev == 0
  {
    if step > 0 then step - 1 else step
  }

  /** Neither button leaves the range of steps. */
  lemma StepsStayInRange(step: nat)
    requires step < OnboardingStepCount
    ensures StepAfterNext(step) < OnboardingStepCount
    ensures StepAfterPrevious(step) < OnboardingStepCount
  {
  }

  /** Back undoes next, except on the last step; next undoes back, except
      on the first. */
  lemma NextAndPreviousUndo(step: nat)
    ensures step < LastStep ==> StepAfterPrevious(StepAfterNext(step)) == step
    ensures 0 < step <= LastStep ==> StepAfterNext(StepAfterPrevious(step)) == step
  {
  }

  /** The step reached by pressing next `k` times. */
  function StepAfterNexts(step: nat, k: nat): nat
    decreases k
  {
    if k == 0 then step else StepAfterNexts(StepAfterNext(step), k - 1)
  }

  /** Pressing next `k` times advances `k` steps, stopping at the last. */
  lemma {:induction false} NextsStopAtLast(step: nat, k: nat)
    requires step <= LastStep
    ensures StepAfterNexts(step, k) == if step + k <= LastStep then step + k else LastStep
    decreases k
  {
    if k > 0 {
      NextsStopAtLast(StepAfterNext(step), k - 1);
    }
  }

  /** From the first step, the flow completes on the fourth press of next
      and no earlier. */
  lemma CompletesAfterEveryStep(k: nat)
    ensures NextCompletes(StepAfterNexts(0, k)) <==> k >= LastStep
  {
    NextsStopAtLast(0, k);
  }

  datatype Screen =
    | WelcomeScreen(title: string)
    | FeatureScreen(title: string, isLast: bool)

  /** The screen shown on a step: the welcome screen first, feature screens
      after it, the last one marked as such. */
  function ScreenAt(step: nat): (s: Screen)
    requires step < OnboardingStepCount
    ensures s.WelcomeScreen? <==> step == 0
    ensures s.FeatureScreen? ==> (s.isLast <==> step == LastStep)
    ensures s.title == OnboardingStepTitles[step]
  {
    if step == 0 then WelcomeScreen(OnboardingStepTitles[step])
    else FeatureScreen(OnboardingStepTitles[step], step == LastStep)
  }

  class Flow {
    var currentStep: nat
    /** How often `onComplete` has been called. */
    var completions: nat

    ghost predicate Valid()
      reads this
    {
      currentStep < OnboardingStepCount
    }

    constructor()
      ensures Valid() && currentStep == 0 && completions == 0
    {
      currentStep := 0;
      completions := 0;
    }

    function Screen(): Screen
      requires Valid()
      reads this
    {
      ScreenAt(currentStep)
    }

    /** `handleNext`: move forward, or complete on the last step. */
    method Next()
      requires Valid()
      modifies this
      ensures Valid()
      ensures currentStep == StepAfterNext(old(currentStep))
      ensures completions == old(completions) + (if NextCompletes(old(currentStep)) then 1 else 0)
    {
      if currentStep < OnboardingStepCount - 1 {
        currentStep := currentStep + 1;
      } else {
        completions := completions + 1;
      }
    }

    /** `handlePrevious`: move back unless on the first step. */
    method Previous()
      requires Valid()
      modifies this
      ensures Valid()
      ensures currentStep == StepAfterPrevious(old(currentStep))
      ensures completions == old(completions)
    {
      if currentStep > 0 {
        currentStep := currentStep - 1;
      }
    }

    /** `handleSkip`: complete from wherever the flow is. */
    method Skip()
      requires Valid()
      modifies this
      ensures Valid()
      ensures currentStep == old(currentStep) && completions == old(completions) + 1
    {
      completions := completions + 1;
    }
  }
}
