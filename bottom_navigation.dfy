/** The tab bar: switching tabs rewrites the last segment of the path, the
    tab named by the active id is highlighted, and each tab has its icon. */
module BottomNavigation {
  import opened Strings
  import opened Constants
  import opened MainApp

  /** `handleTabChange`: `${path.split('/').slice(0, -1).join('/')}/${tabId}`. */
  function TabChangePath(path: string, tabId: string): (r: string)
    ensures |r| > |tabId| && r[|r| - |tabId|..] == tabId && r[|r| - |tabId| - 1] == '/'
  {
    var parts := Split(path, '/');
    Join(parts[..|parts| - 1], "/") + "/" + tabId
  }

  /** The last segment is replaced by the tab id; everything before the
      last `/` is kept as it was. */
  lemma TabChangeReplacesLastSegment(dir: string, segment: string, tabId: string)
    requires '/' !in segment
    ensures TabChangePath(dir + "/" + segment, tabId) == dir + "/" + tabId
  {
    var path := dir + "/" + segment;
    assert path == dir + ['/'] + segment;
    SplitAround(dir, '/', segment);
    var parts := Split(path, '/');
    assert parts[..|parts| - 1] == Split(dir, '/');
    JoinSplit(dir, '/');
  }

  /** A path without a `/` is replaced whole. */
  lemma TabChangeWithoutSlash(path: string, tabId: string)
    requires '/' !in path
    ensures TabChangePath(path, tabId) == "/" + tabId
  {
  }

  /** Switching to a tab and then reading the tab from the new path gives
      that tab back. */
  lemma SwitchThenRead(path: string, t: TabId)
    ensures CurrentTab(TabChangePath(path, TabName(t))) == t
  {
    var parts := Split(path, '/');
    var dir := Join(parts[..|parts| - 1], "/");
    assert '/' !in TabName(t);
    assert TabChangePath(path, TabName(t)) == dir + ['/'] + TabName(t);
    LastSegmentAfter(dir, '/', TabName(t));
  }

  /** `activeTab === tab.id`. */
  predicate IsActive(activeTab: string, tab: TabId) {
    activeTab == TabName(tab)
  }

  /** No two tabs are active at once. */
  lemma AtMostOneActive(activeTab: string, t: TabId, u: TabId)
    ensures IsActive(activeTab, t) && IsActive(activeTab, u) ==> t == u
  {
  }

  /** After switching to a tab, that tab and no other is highlighted. */
  lemma SwitchHighlights(path: string, t: TabId, u: TabId)
    ensures IsActive(TabName(CurrentTab(TabChangePath(path, TabName(t)))), u) <==> u == t
  {
    SwitchThenRead(path, t);
    AtMostOneActive(TabName(t), t, u);
  }

  datatype Icon = FileTextIcon | MessageCircleIcon | MicIcon

  /** `getTabIcon`. */
  function TabIcon(tabId: string): Icon {
    if tabId == TabName(SourcesTab) then FileTextIcon
    else if tabId == TabName(ChatTab) then MessageCircleIcon
    else if tabId == TabName(StudioTab) then MicIcon
    else FileTextIcon
  }

  /** Each tab has its own icon; an unknown id falls back to the sources
      icon. */
  lemma TabIcons(tabId: string)
    ensures TabIcon(TabName(SourcesTab)) == FileTextIcon
    ensures TabIcon(TabName(ChatTab)) == MessageCircleIcon
    ensures TabIcon(TabName(StudioTab)) == MicIcon
    ensures (forall t: TabId :: TabName(t) != tabId) ==> TabIcon(tabId) == FileTextIcon
  {
  }
}
