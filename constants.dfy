/** The constant tables of the client: the onboarding steps and the bottom
    navigation tabs. */
module Constants {

  /** The titles of the four onboarding steps, in order. */
  const OnboardingStepTitles: seq<string> := [
    "Let's get started",
    "Add sources from anywhere",
    "Instant insights you can trust",
    "Listen & learn on the go"
  ]

  const OnboardingStepCount: nat := |OnboardingStepTitles|

  datatype TabId = SourcesTab | ChatTab | StudioTab

  /** The navigation tabs, in display order. */
  const NavigationTabs: seq<TabId> := [SourcesTab, ChatTab, StudioTab]

  /** The `id` string of a tab, as it appears in the URL. */
  function TabName(t: TabId): string {
    match t
    case SourcesTab => "sources"
    case ChatTab => "chat"
    case StudioTab => "studio"
  }
}
