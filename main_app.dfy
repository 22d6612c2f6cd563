/** How the main screen picks its tab from the address: only the last
    `/`-separated segment of the path counts, and anything that is not a
    tab id opens the chat. */
module MainApp {
  import opened Wrappers
  import opened Strings
  import opened Constants

  /** `NAVIGATION_TABS.find(tab => tab.id === name)`. */
  function TabNamed(name: string): (r: Option<TabId>)
    ensures r.Some? ==> TabName(r.value) == name
    ensures r.None? ==> forall t: TabId :: TabName(t) != name
  {
    if name == TabName(SourcesTab) then Some(SourcesTab)
    else if name == TabName(ChatTab) then Some(ChatTab)
    else if name == TabName(StudioTab) then Some(StudioTab)
    else None
  }

  /** `getCurrentTab`. */
  function CurrentTab(path: string): TabId {
    match TabNamed(LastSegment(path, '/'))
    case Some(t) => t
    case None => ChatTab
  }

  /** A tab's own id names it. */
  lemma TabNamedRoundTrip(t: TabId)
    ensures TabNamed(TabName(t)) == Some(t)
  {
  }

  /** The tab is read from the segment after the last `/`; what comes
      before does not matter. */
  lemma CurrentTabReadsLastSegment(dir: string, segment: string)
    requires '/' !in segment
    ensures CurrentTab(dir + "/" + segment) ==
            if exists t: TabId :: TabName(t) == segment then TabNamed(segment).value else ChatTab
  {
    assert dir + "/" + segment == dir + ['/'] + segment;
    LastSegmentAfter(dir, '/', segment);
  }

  /** A path whose last segment is no tab id opens the chat. */
  lemma UnknownSegmentOpensChat(path: string)
    requires forall t: TabId :: TabName(t) != LastSegment(path, '/')
    ensures CurrentTab(path) == ChatTab
  {
  }
}
