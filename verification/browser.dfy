/** The tab session behind the browser screen (`BrowserScreen`): an ordered list of
    tabs with an active-tab pointer, the address-bar input rule, per-tab field
    updates, and the gating of WebView notifications and back/forward on the
    active tab. Every handler is a transition from one session to the next. */
module BrowserScreen {
  import opened Wrappers
  import opened Text
  import opened Seqs
  import HistoryService

  datatype Tab = Tab(id: string, url: string, title: string, canGoBack: bool, canGoForward: bool)

  /** The screen's state; the load-progress fraction is display only and left out. */
  datatype Session = Session(
    tabs: seq<Tab>,
    activeTabId: string,
    desktopMode: bool,
    tabViewVisible: bool,
    loading: bool)

  const DefaultSearchEngine: string := "http://thazhsearch.wuaze.com"
  const DefaultUrl: string := "http://thazhsearch.wuaze.com"

  function TabId(t: Tab): string { t.id }

  /** Some tab of `tabs` has id `id`. */
  predicate HasTab(tabs: seq<Tab>, id: string) {
    exists i :: 0 <= i < |tabs| && tabs[i].id == id
  }

  /** The first screen: one tab `"1"` on the search page, active, in mobile mode. */
  function Initial(): (s: Session)
    ensures |s.tabs| == 1 && s.activeTabId == s.tabs[0].id == "1"
    ensures s.tabs[0].url == DefaultUrl && !s.tabs[0].canGoBack && !s.tabs[0].canGoForward
    ensures !s.desktopMode && !s.tabViewVisible && !s.loading
  {
    Session([Tab("1", DefaultUrl, "Thazh Search", false, false)], "1", false, false, false)
  }

  /** `tabs.find(tab => tab.id === activeTabId)`: the first tab with the active id. */
  function ActiveTab(s: Session): (r: Option<Tab>)
    ensures r.None? <==> !HasTab(s.tabs, s.activeTabId)
    ensures r.Some? ==> r.value.id == s.activeTabId && r.value in s.tabs
  {
    var k := IndexOfKey(s.tabs, TabId, s.activeTabId);
    if k == -1 then None else Some(s.tabs[k])
  }

  /** The text already names the http or https scheme. */
  predicate HasWebScheme(s: string) {
    StartsWith(s, "http://") || StartsWith(s, "https://")
  }

  /** The address bar treats the text as a search query: it has a space, or has
      neither a dot nor a colon. */
  predicate LooksLikeQuery(s: string) {
    ' ' in s || ('.' !in s && ':' !in s)
  }

  /** `formatUrl`: what the address bar loads for the text typed into it. Blank input
      loads the default page; a query goes to the search engine; input already naming
      http or https loads as typed; anything else is given the https scheme. `encode`
      stands for `encodeURIComponent`. */
  function FormatUrl(input: string, encode: string -> string): (r: string)
    ensures AllWhitespace(input) ==> r == DefaultUrl
    ensures !AllWhitespace(input) && LooksLikeQuery(input) ==>
      r == DefaultSearchEngine + "?q=" + encode(input)
    ensures !AllWhitespace(input) && !LooksLikeQuery(input) ==>
      r == if HasWebScheme(input) then input else "https://" + input
  {
    if Trim(input) == [] then DefaultUrl
    else if LooksLikeQuery(input) then DefaultSearchEngine + "?q=" + encode(input)
    else if HasWebScheme(input) then input
    else "https://" + input
  }

  /** `tabs.map(tab => tab.id === tabId ? f(tab) : tab)`. */
  function MapTab(tabs: seq<Tab>, tabId: string, f: Tab -> Tab): (r: seq<Tab>)
    ensures |r| == |tabs|
    ensures forall i :: 0 <= i < |tabs| && tabs[i].id == tabId ==> r[i] == f(tabs[i])
    ensures forall i :: 0 <= i < |tabs| && tabs[i].id != tabId ==> r[i] == tabs[i]
  {
    seq(|tabs|, i requires 0 <= i < |tabs| => if tabs[i].id == tabId then f(tabs[i]) else tabs[i])
  }

  function WithUrl(url: string): Tab -> Tab { (t: Tab) => t.(url := url) }
  function WithTitle(title: string): Tab -> Tab { (t: Tab) => t.(title := title) }
  function WithNavigation(canGoBack: bool, canGoForward: bool): Tab -> Tab {
    (t: Tab) => t.(canGoBack := canGoBack, canGoForward := canGoForward)
  }

  /** `updateTabUrl`: the tabs with id `tabId` get the new url; every other field of
      every tab, and the order and number of tabs, stay as they were. */
  function UpdateTabUrl(s: Session, tabId: string, url: string): (r: Session)
    ensures r == s.(tabs := r.tabs) && |r.tabs| == |s.tabs|
    ensures forall i :: 0 <= i < |s.tabs| ==>
      && r.tabs[i].id == s.tabs[i].id && r.tabs[i].title == s.tabs[i].title
      && r.tabs[i].canGoBack == s.tabs[i].canGoBack && r.tabs[i].canGoForward == s.tabs[i].canGoForward
      && r.tabs[i].url == if s.tabs[i].id == tabId then url else s.tabs[i].url
  {
    s.(tabs := MapTab(s.tabs, tabId, WithUrl(url)))
  }

  /** `updateTabTitle`: only the title of the tabs with id `tabId` changes. */
  function UpdateTabTitle(s: Session, tabId: string, title: string): (r: Session)
    ensures r == s.(tabs := r.tabs) && |r.tabs| == |s.tabs|
    ensures forall i :: 0 <= i < |s.tabs| ==>
      && r.tabs[i].id == s.tabs[i].id && r.tabs[i].url == s.tabs[i].url
      && r.tabs[i].canGoBack == s.tabs[i].canGoBack && r.tabs[i].canGoForward == s.tabs[i].canGoForward
      && r.tabs[i].title == if s.tabs[i].id == tabId then title else s.tabs[i].title
  {
    s.(tabs := MapTab(s.tabs, tabId, WithTitle(title)))
  }

  /** `updateTabNavigation`: only the two history flags of the tabs with id `tabId` change. */
  function UpdateTabNavigation(s: Session, tabId: string, canGoBack: bool, canGoForward: bool): (r: Session)
    ensures r == s.(tabs := r.tabs) && |r.tabs| == |s.tabs|
    ensures forall i :: 0 <= i < |s.tabs| ==>
      && r.tabs[i].id == s.tabs[i].id && r.tabs[i].url == s.tabs[i].url && r.tabs[i].title == s.tabs[i].title
      && r.tabs[i].canGoBack == (if s.tabs[i].id == tabId then canGoBack else s.tabs[i].canGoBack)
      && r.tabs[i].canGoForward == (if s.tabs[i].id == tabId then canGoForward else s.tabs[i].canGoForward)
  {
    s.(tabs := MapTab(s.tabs, tabId, WithNavigation(canGoBack, canGoForward)))
  }

  /** Setting the active tab's url changes the active tab's url and nothing else of it. */
  lemma UpdateActiveTabUrl(s: Session, url: string)
    requires HasTab(s.tabs, s.activeTabId)
    ensures ActiveTab(UpdateTabUrl(s, s.activeTabId, url)) == Some(ActiveTab(s).value.(url := url))
  {
    var r := UpdateTabUrl(s, s.activeTabId, url);
    var k := IndexOfKey(s.tabs, TabId, s.activeTabId);
    assert forall i :: 0 <= i < |s.tabs| ==> r.tabs[i].id == s.tabs[i].id;
    assert IndexOfKey(r.tabs, TabId, s.activeTabId) == k;
  }

  /** `navigateToUrl`: the active tab loads the formatted input; no other tab changes. */
  function NavigateToUrl(s: Session, input: string, encode: string -> string): (r: Session)
    ensures r == s.(tabs := r.tabs) && |r.tabs| == |s.tabs|
    ensures forall i :: 0 <= i < |s.tabs| && s.tabs[i].id != s.activeTabId ==> r.tabs[i] == s.tabs[i]
    ensures HasTab(s.tabs, s.activeTabId) ==> ActiveTab(r) == Some(ActiveTab(s).value.(url := FormatUrl(input, encode)))
  {
    var url := FormatUrl(input, encode);
    if HasTab(s.tabs, s.activeTabId) then
      UpdateActiveTabUrl(s, url);
      UpdateTabUrl(s, s.activeTabId, url)
    else
      UpdateTabUrl(s, s.activeTabId, url)
  }

  /** The tab `addNewTab` opens, with id `Date.now().toString()`. */
  function NewTab(now: nat): Tab {
    Tab(Decimal(now), DefaultUrl, "New Tab", false, false)
  }

  /** `addNewTab`: a new tab on the default page goes at the end and becomes active;
      the tab view closes; the existing tabs are kept as they were. */
  function AddNewTab(s: Session, now: nat): (r: Session)
    ensures |r.tabs| == |s.tabs| + 1 && r.tabs[..|s.tabs|] == s.tabs
    ensures r.tabs[|s.tabs|] == NewTab(now) && r.activeTabId == Decimal(now)
    ensures !r.tabViewVisible
    ensures r.desktopMode == s.desktopMode && r.loading == s.loading
  {
    s.(tabs := s.tabs + [NewTab(now)], activeTabId := Decimal(now), tabViewVisible := false)
  }

  /** `closeTab`. With one tab, nothing is removed: a new tab is opened as by
      `addNewTab`. Otherwise every tab with id `tabId` is removed, the rest keep their
      order, and if the closed tab was active the tab now at its index, or the one
      before it when it was last, becomes active. `None` stands for the `TypeError`
      raised when that index holds no tab, which only an absent or duplicated active
      id can cause. */
  function CloseTab(s: Session, tabId: string, now: nat): (r: Option<Session>)
    ensures |s.tabs| == 1 ==> r == Some(AddNewTab(s, now))
    ensures |s.tabs| != 1 && r.Some? ==>
      && r.value.tabs == WithoutKey(s.tabs, TabId, tabId)
      && r.value.desktopMode == s.desktopMode && r.value.tabViewVisible == s.tabViewVisible
      && r.value.loading == s.loading
    ensures |s.tabs| != 1 && s.activeTabId != tabId ==> r.Some? && r.value.activeTabId == s.activeTabId
    ensures |s.tabs| != 1 && s.activeTabId == tabId && r.Some? ==> HasTab(r.value.tabs, r.value.activeTabId)
  {
    if |s.tabs| == 1 then Some(AddNewTab(s, now))
    else
      var tabIndex := IndexOfKey(s.tabs, TabId, tabId);
      var newTabs := WithoutKey(s.tabs, TabId, tabId);
      if s.activeTabId == tabId then ActivateNeighbour(s.(tabs := newTabs), tabIndex)
      else Some(s.(tabs := newTabs))
  }

  /** After the active tab at `closedIndex` is removed from `s.tabs`: the tab now at
      that index becomes active, or the one before it when the closed tab was last;
      `None` (the `TypeError`) when there is no such tab. */
  function ActivateNeighbour(s: Session, closedIndex: int): Option<Session> {
    var newActiveIndex := if closedIndex < |s.tabs| then closedIndex else closedIndex - 1;
    if 0 <= newActiveIndex < |s.tabs| then Some(s.(activeTabId := s.tabs[newActiveIndex].id))
    else None
  }

  /** `switchTab`: makes `tabId` active, whether or not a tab has it, and closes the tab view. */
  function SwitchTab(s: Session, tabId: string): (r: Session)
    ensures r.tabs == s.tabs && r.activeTabId == tabId && !r.tabViewVisible
    ensures r.desktopMode == s.desktopMode && r.loading == s.loading
  {
    s.(activeTabId := tabId, tabViewVisible := false)
  }

  /** The tabs button opens the tab view; the tab view's close button hides it. */
  function SetTabViewVisible(s: Session, visible: bool): (r: Session)
    ensures r.tabViewVisible == visible && r.(tabViewVisible := s.tabViewVisible) == s
  {
    s.(tabViewVisible := visible)
  }

  /** `onLoadStart` of the WebView of tab `tabId`: only the active tab's load shows. */
  function OnLoadStart(s: Session, tabId: string): (r: Session)
    ensures r.(loading := s.loading) == s
    ensures r.loading <==> (tabId == s.activeTabId || s.loading)
  {
    if tabId == s.activeTabId then s.(loading := true) else s
  }

  /** `onLoadEnd` of the WebView of tab `tabId`: only the active tab's load ends the indicator. */
  function OnLoadEnd(s: Session, tabId: string): (r: Session)
    ensures r.(loading := s.loading) == s
    ensures r.loading <==> (tabId != s.activeTabId && s.loading)
  {
    if tabId == s.activeTabId then s.(loading := false) else s
  }

  /** What a WebView reports after a navigation. */
  datatype NavState = NavState(url: string, title: string, canGoBack: bool, canGoForward: bool)

  /** A visit handed to `HistoryService.addHistory`. */
  datatype Visit = Visit(url: string, title: string)

  /** `onNavigationStateChange` of the WebView of tab `tabId`. A background tab's report
      is dropped. The active tab takes the reported url, title and history flags, and
      the visit is handed to the history store. */
  function OnNavigationStateChange(s: Session, tabId: string, nav: NavState): (r: (Session, Option<Visit>))
    ensures tabId != s.activeTabId ==> r == (s, None)
    ensures tabId == s.activeTabId ==> r.1 == Some(Visit(nav.url, nav.title))
    ensures r.0 == s.(tabs := r.0.tabs) && |r.0.tabs| == |s.tabs|
    ensures forall i :: 0 <= i < |s.tabs| ==>
      r.0.tabs[i] == if s.tabs[i].id == tabId == s.activeTabId
        then Tab(tabId, nav.url, nav.title, nav.canGoBack, nav.canGoForward)
        else s.tabs[i]
  {
    if tabId == s.activeTabId then
      var s1 := UpdateTabUrl(s, tabId, nav.url);
      var s2 := UpdateTabTitle(s1, tabId, nav.title);
      var s3 := UpdateTabNavigation(s2, tabId, nav.canGoBack, nav.canGoForward);
      (s3, Some(Visit(nav.url, nav.title)))
    else
      (s, None)
  }

  /** The navigation handler together with the history store it writes to: the store
      changes only through `addHistory`, and only on the active tab's reports. */
  function OnNavigationWithHistory(s: Session, history: HistoryService.Stored, tabId: string, nav: NavState, now: nat)
    : (r: (Session, HistoryService.Stored))
    ensures r.0 == OnNavigationStateChange(s, tabId, nav).0
    ensures tabId != s.activeTabId ==> r.1 == history
    ensures tabId == s.activeTabId ==> r.1 == HistoryService.AddHistory(history, nav.url, nav.title, now)
  {
    var (s', visit) := OnNavigationStateChange(s, tabId, nav);
    match visit
    case None => (s', history)
    case Some(v) => (s', HistoryService.AddHistory(history, v.url, v.title, now))
  }

  /** The calls the screen makes on the active tab's WebView. */
  datatype WebViewCall = GoBackCall | GoForwardCall | ReloadCall

  /** `goBack`: dispatched only when the active tab's WebView is mounted (`mounted`)
      and the active tab can go back. */
  function GoBack(s: Session, mounted: bool): (r: Option<WebViewCall>)
    ensures r.Some? <==> mounted && ActiveTab(s).Some? && ActiveTab(s).value.canGoBack
    ensures r.Some? ==> r.value == GoBackCall
  {
    var active := ActiveTab(s);
    if mounted && active.Some? && active.value.canGoBack then Some(GoBackCall) else None
  }

  /** `goForward`: dispatched only when the active tab's WebView is mounted and the
      active tab can go forward. */
  function GoForward(s: Session, mounted: bool): (r: Option<WebViewCall>)
    ensures r.Some? <==> mounted && ActiveTab(s).Some? && ActiveTab(s).value.canGoForward
    ensures r.Some? ==> r.value == GoForwardCall
  {
    var active := ActiveTab(s);
    if mounted && active.Some? && active.value.canGoForward then Some(GoForwardCall) else None
  }

  /** `reload`: dispatched whenever the active tab's WebView is mounted. */
  function Reload(mounted: bool): (r: Option<WebViewCall>)
    ensures r.Some? <==> mounted
    ensures r.Some? ==> r.value == ReloadCall
  {
    if mounted then Some(ReloadCall) else None
  }

  /** `toggleDesktopMode`: flips desktop mode and nothing else. */
  function ToggleDesktopMode(s: Session): (r: Session)
    ensures r.desktopMode != s.desktopMode
    ensures r.(desktopMode := s.desktopMode) == s
  {
    s.(desktopMode := !s.desktopMode)
  }

  /** The user agent the WebViews get: a fixed desktop string, or the platform's own. */
  datatype UserAgent = DesktopAgent | PlatformDefault

  function GetUserAgent(s: Session): (r: UserAgent)
    ensures r == DesktopAgent <==> s.desktopMode
  {
    if s.desktopMode then DesktopAgent else PlatformDefault
  }
}
