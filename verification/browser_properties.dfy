/** Properties of the tab session: the session invariant (a non-empty tab list with
    distinct ids whose active id names a tab) holds initially and after every handler
    given fresh ids, the close rule, the address-bar rule and the mode toggle. */
module BrowserProperties {
  import opened Wrappers
  import opened Text
  import opened Seqs
  import opened BrowserScreen

  /** The session invariant. */
  ghost predicate Valid(s: Session) {
    && |s.tabs| > 0
    && HasTab(s.tabs, s.activeTabId)
    && KeysDistinct(s.tabs, TabId)
  }

  lemma InitialValid()
    ensures Valid(Initial())
  {
    assert Initial().tabs[0].id == "1";
  }

  /** A session whose tab ids are unchanged, position by position, keeps the invariant. */
  lemma SameIdsKeepValid(s: Session, t: Session)
    requires Valid(s) && t.activeTabId == s.activeTabId && |t.tabs| == |s.tabs|
    requires forall i :: 0 <= i < |s.tabs| ==> t.tabs[i].id == s.tabs[i].id
    ensures Valid(t)
  {
    var i :| 0 <= i < |s.tabs| && s.tabs[i].id == s.activeTabId;
    assert t.tabs[i].id == t.activeTabId;
  }

  /** Opening a tab with a fresh id keeps the invariant. */
  lemma AddNewTabKeepsValid(s: Session, now: nat)
    requires Valid(s) && !HasTab(s.tabs, Decimal(now))
    ensures Valid(AddNewTab(s, now))
  {
    var r := AddNewTab(s, now);
    assert r.tabs[|s.tabs|].id == r.activeTabId;
    forall i, j | 0 <= i < j < |r.tabs|
      ensures r.tabs[i].id != r.tabs[j].id
    {
      assert r.tabs[i] == s.tabs[i];
      if j < |s.tabs| {
        assert r.tabs[j] == s.tabs[j];
      }
    }
  }

  /** Closing the active tab of a valid session with two or more tabs keeps the invariant. */
  lemma CloseActiveKeepsValid(s: Session, now: nat)
    requires Valid(s) && |s.tabs| >= 2
    ensures CloseTab(s, s.activeTabId, now).Some?
    ensures Valid(CloseTab(s, s.activeTabId, now).value)
  {
    var k :| 0 <= k < |s.tabs| && s.tabs[k].id == s.activeTabId;
    CloseActiveTab(s, k, now);
    var r := CloseTab(s, s.activeTabId, now).value;
    FilterKeepsKeysDistinct(s.tabs, KeyIsNot(TabId, s.activeTabId), TabId);
    if k + 1 < |s.tabs| {
      assert r.tabs[k] == s.tabs[k + 1];
    } else {
      assert r.tabs[k - 1] == s.tabs[k - 1];
    }
  }

  /** Closing any tab but the active one, in a valid session with two or more tabs,
      keeps the invariant. */
  lemma CloseOtherKeepsValid(s: Session, tabId: string, now: nat)
    requires Valid(s) && |s.tabs| >= 2 && tabId != s.activeTabId
    ensures CloseTab(s, tabId, now).Some?
    ensures Valid(CloseTab(s, tabId, now).value)
  {
    var r := CloseTab(s, tabId, now).value;
    FilterKeepsKeysDistinct(s.tabs, KeyIsNot(TabId, tabId), TabId);
    var i :| 0 <= i < |s.tabs| && s.tabs[i].id == s.activeTabId;
    assert s.tabs[i] in r.tabs;
  }

  /** Closing a tab of a valid session never fails, and keeps the invariant when the
      one-tab case opens a tab with a fresh id. */
  lemma CloseTabKeepsValid(s: Session, tabId: string, now: nat)
    requires Valid(s)
    requires |s.tabs| == 1 ==> !HasTab(s.tabs, Decimal(now))
    ensures CloseTab(s, tabId, now).Some?
    ensures Valid(CloseTab(s, tabId, now).value)
  {
    if |s.tabs| == 1 {
      AddNewTabKeepsValid(s, now);
    } else if tabId == s.activeTabId {
      CloseActiveKeepsValid(s, now);
    } else {
      CloseOtherKeepsValid(s, tabId, now);
    }
  }

  /** Closing the active tab of a valid session with two or more tabs removes exactly
      it and activates its right-hand neighbour, or its left-hand one when it was last. */
  lemma CloseActiveTab(s: Session, k: nat, now: nat)
    requires KeysDistinct(s.tabs, TabId) && |s.tabs| >= 2
    requires k < |s.tabs| && s.tabs[k].id == s.activeTabId
    ensures var r := CloseTab(s, s.activeTabId, now);
      && r.Some?
      && r.value.tabs == s.tabs[..k] + s.tabs[k + 1..]
      && r.value.activeTabId == if k + 1 < |s.tabs| then s.tabs[k + 1].id else s.tabs[k - 1].id
  {
    var newTabs := s.tabs[..k] + s.tabs[k + 1..];
    CloseActiveRemovesIt(s, k, now);
    if k + 1 < |s.tabs| {
      assert newTabs[k] == s.tabs[k + 1];
    } else {
      assert newTabs[k - 1] == s.tabs[k - 1];
    }
  }

  lemma CloseActiveRemovesIt(s: Session, k: nat, now: nat)
    requires KeysDistinct(s.tabs, TabId) && |s.tabs| >= 2
    requires k < |s.tabs| && s.tabs[k].id == s.activeTabId
    ensures var newTabs, r := s.tabs[..k] + s.tabs[k + 1..], CloseTab(s, s.activeTabId, now);
      && r.Some? && r.value.tabs == newTabs
      && r.value.activeTabId == newTabs[if k < |newTabs| then k else k - 1].id
  {
    WithoutKeyIsRemoveAt(s.tabs, TabId, k);
    IndexOfDistinctKey(s.tabs, TabId, k);
    CloseActiveAt(s, k, now);
  }

  lemma CloseActiveAt(s: Session, k: nat, now: nat)
    requires |s.tabs| >= 2 && k < |s.tabs|
    requires IndexOfKey(s.tabs, TabId, s.activeTabId) == k
    requires |WithoutKey(s.tabs, TabId, s.activeTabId)| == |s.tabs| - 1
    ensures var newTabs, r := WithoutKey(s.tabs, TabId, s.activeTabId), CloseTab(s, s.activeTabId, now);
      && r.Some? && r.value.tabs == newTabs
      && r.value.activeTabId == newTabs[if k < |newTabs| then k else k - 1].id
  {
    var newTabs := WithoutKey(s.tabs, TabId, s.activeTabId);
    assert CloseTab(s, s.activeTabId, now) == ActivateNeighbour(s.(tabs := newTabs), k);
  }

  /** Closing a background tab of a valid session with two or more tabs removes exactly
      it and leaves the active tab as it was. */
  lemma CloseBackgroundTab(s: Session, k: nat, now: nat)
    requires Valid(s) && |s.tabs| >= 2
    requires k < |s.tabs| && s.tabs[k].id != s.activeTabId
    ensures var r := CloseTab(s, s.tabs[k].id, now);
      && r.Some?
      && r.value.tabs == s.tabs[..k] + s.tabs[k + 1..]
      && r.value.activeTabId == s.activeTabId
  {
    WithoutKeyIsRemoveAt(s.tabs, TabId, k);
  }

  /** Closing the only tab keeps it and opens a second one, which becomes active. */
  lemma CloseOnlyTab(s: Session, tabId: string, now: nat)
    requires |s.tabs| == 1
    ensures var r := CloseTab(s, tabId, now).value;
      |r.tabs| == 2 && r.tabs[0] == s.tabs[0] && r.activeTabId == r.tabs[1].id == Decimal(now)
  {
  }

  /** Switching to a tab that exists keeps the invariant. */
  lemma SwitchTabKeepsValid(s: Session, tabId: string)
    requires Valid(s) && HasTab(s.tabs, tabId)
    ensures Valid(SwitchTab(s, tabId))
  {
  }

  /** In a valid session, the active tab's navigation report becomes its url, title and
      flags, and is recorded as a visit. */
  lemma NavigationUpdatesActiveTab(s: Session, nav: NavState)
    requires Valid(s)
    ensures var (r, visit) := OnNavigationStateChange(s, s.activeTabId, nav);
      && ActiveTab(r) == Some(Tab(s.activeTabId, nav.url, nav.title, nav.canGoBack, nav.canGoForward))
      && visit == Some(Visit(nav.url, nav.title))
      && Valid(r)
  {
    var r := OnNavigationStateChange(s, s.activeTabId, nav).0;
    SameIdsKeepValid(s, r);
    var k := IndexOfKey(r.tabs, TabId, s.activeTabId);
    assert r.tabs[k].id == s.tabs[k].id;
  }

  /** After the active tab reports its navigation state, the back and forward buttons
      act exactly when its WebView is mounted and the report allows them. */
  lemma HistoryButtonsFollowNavigation(s: Session, nav: NavState, mounted: bool)
    requires Valid(s)
    ensures var r := OnNavigationStateChange(s, s.activeTabId, nav).0;
      && (GoBack(r, mounted).Some? <==> mounted && nav.canGoBack)
      && (GoForward(r, mounted).Some? <==> mounted && nav.canGoForward)
  {
    NavigationUpdatesActiveTab(s, nav);
  }

  /** Text that starts with a web scheme still does after anything is appended. */
  lemma WebSchemeExtends(a: string, b: string)
    requires HasWebScheme(a)
    ensures HasWebScheme(a + b)
  {
    if StartsWith(a, "http://") {
      assert (a + b)[..7] == a[..7];
    } else {
      assert (a + b)[..8] == a[..8];
    }
  }

  lemma DefaultUrlIsWebUrl()
    ensures HasWebScheme(DefaultUrl) && HasWebScheme(DefaultSearchEngine)
    ensures ' ' !in DefaultUrl && ' ' !in DefaultSearchEngine + "?q="
  {
    assert DefaultUrl[..7] == "http://";
  }

  lemma SearchUrlIsWebUrl(query: string)
    ensures HasWebScheme(DefaultSearchEngine + "?q=" + query)
  {
    DefaultUrlIsWebUrl();
    assert DefaultSearchEngine + "?q=" + query == DefaultSearchEngine + ("?q=" + query);
    WebSchemeExtends(DefaultSearchEngine, "?q=" + query);
  }

  lemma HttpsPrefixedIsWebUrl(input: string)
    ensures HasWebScheme("https://" + input)
  {
    assert HasWebScheme("https://");
    WebSchemeExtends("https://", input);
  }

  /** Every url the address bar produces names the http or https scheme. */
  lemma FormatUrlIsWebUrl(input: string, encode: string -> string)
    ensures HasWebScheme(FormatUrl(input, encode))
  {
    if AllWhitespace(input) {
      DefaultUrlIsWebUrl();
    } else if LooksLikeQuery(input) {
      SearchUrlIsWebUrl(encode(input));
    } else if !HasWebScheme(input) {
      HttpsPrefixedIsWebUrl(input);
    }
  }

  /** An address with a web scheme and no space loads as typed. */
  lemma FormatUrlKeepsWebUrl(r: string, encode: string -> string)
    requires HasWebScheme(r) && ' ' !in r
    ensures FormatUrl(r, encode) == r
  {
    assert r[0] == 'h' && !IsWhitespace(r[0]);
    assert r[4] == ':' || r[5] == ':';
    assert !LooksLikeQuery(r);
  }

  /** The address bar's output has a space only if the query encoding put one there. */
  lemma FormatUrlSpaceFree(input: string, encode: string -> string)
    requires ' ' !in encode(input)
    ensures ' ' !in FormatUrl(input, encode)
  {
    DefaultUrlIsWebUrl();
    if !AllWhitespace(input) && !LooksLikeQuery(input) && !HasWebScheme(input) {
      assert FormatUrl(input, encode) == "https://" + input;
    }
  }

  /** Typing what the address bar produced loads it again unchanged, as long as the
      query encoding leaves no space. */
  lemma FormatUrlIdempotent(input: string, encode: string -> string)
    requires ' ' !in encode(input)
    ensures FormatUrl(FormatUrl(input, encode), encode) == FormatUrl(input, encode)
  {
    FormatUrlIsWebUrl(input, encode);
    FormatUrlSpaceFree(input, encode);
    FormatUrlKeepsWebUrl(FormatUrl(input, encode), encode);
  }

  /** A host name typed without a scheme, such as `openai.com`, gets https. */
  lemma FormatUrlAddsScheme(input: string, encode: string -> string)
    requires ' ' !in input && '.' in input && !HasWebScheme(input)
    ensures FormatUrl(input, encode) == "https://" + input
  {
    var d :| 0 <= d < |input| && input[d] == '.';
    assert !IsWhitespace(input[d]);
    assert !LooksLikeQuery(input);
  }

  /** Toggling desktop mode twice restores the session, and each toggle switches the user agent. */
  lemma ToggleDesktopModeTwice(s: Session)
    ensures ToggleDesktopMode(ToggleDesktopMode(s)) == s
    ensures GetUserAgent(ToggleDesktopMode(s)) != GetUserAgent(s)
  {
  }

  /** The screen's event handlers, as one alphabet. */
  datatype Action =
    | OpenTab(now: nat)
    | Close(tabId: string, now: nat)
    | Switch(tabId: string)
    | Navigate(input: string)
    | ShowTabs
    | HideTabs
    | LoadStarted(tabId: string)
    | LoadEnded(tabId: string)
    | Navigated(tabId: string, nav: NavState)
    | ToggleDesktop

  /** One handler; `None` when `closeTab` raises. */
  function Step(s: Session, a: Action, encode: string -> string): (r: Option<Session>)
    ensures !a.Close? ==> r.Some?
  {
    match a
    case OpenTab(now) => Some(AddNewTab(s, now))
    case Close(tabId, now) => CloseTab(s, tabId, now)
    case Switch(tabId) => Some(SwitchTab(s, tabId))
    case Navigate(input) => Some(NavigateToUrl(s, input, encode))
    case ShowTabs => Some(SetTabViewVisible(s, true))
    case HideTabs => Some(SetTabViewVisible(s, false))
    case LoadStarted(tabId) => Some(OnLoadStart(s, tabId))
    case LoadEnded(tabId) => Some(OnLoadEnd(s, tabId))
    case Navigated(tabId, nav) => Some(OnNavigationStateChange(s, tabId, nav).0)
    case ToggleDesktop => Some(ToggleDesktopMode(s))
  }

  /** The handlers one after the other, stopping at the first that raises. */
  function Run(s: Session, acts: seq<Action>, encode: string -> string): Option<Session>
    decreases |acts|
  {
    if |acts| == 0 then Some(s)
    else
      match Step(s, acts[0], encode)
      case None => None
      case Some(t) => Run(t, acts[1..], encode)
  }

  /** What the screen guarantees about a handler's input: ids from the clock are fresh,
      and the tab list only offers existing tabs to switch to. */
  predicate Allowed(s: Session, a: Action) {
    match a
    case OpenTab(now) => !HasTab(s.tabs, Decimal(now))
    case Close(_, now) => |s.tabs| == 1 ==> !HasTab(s.tabs, Decimal(now))
    case Switch(tabId) => HasTab(s.tabs, tabId)
    case _ => true
  }

  /** Every handler of the run gets an allowed input. */
  ghost predicate AllowedRun(s: Session, acts: seq<Action>, encode: string -> string)
    decreases |acts|
  {
    |acts| == 0 ||
    (Allowed(s, acts[0]) &&
     (Step(s, acts[0], encode).Some? ==> AllowedRun(Step(s, acts[0], encode).value, acts[1..], encode)))
  }

  /** Every handler keeps the invariant, given an allowed input. */
  lemma StepKeepsValid(s: Session, a: Action, encode: string -> string)
    requires Valid(s) && Allowed(s, a)
    ensures Step(s, a, encode).Some? && Valid(Step(s, a, encode).value)
  {
    match a
    case OpenTab(now) => AddNewTabKeepsValid(s, now);
    case Close(tabId, now) => CloseTabKeepsValid(s, tabId, now);
    case Switch(tabId) =>
    case Navigate(input) => SameIdsKeepValid(s, NavigateToUrl(s, input, encode));
    case ShowTabs =>
    case HideTabs =>
    case LoadStarted(_) =>
    case LoadEnded(_) =>
    case Navigated(tabId, nav) => SameIdsKeepValid(s, OnNavigationStateChange(s, tabId, nav).0);
    case ToggleDesktop =>
  }

  /** A run of allowed handlers from a valid session never raises and ends valid. */
  lemma {:induction false} RunKeepsValid(s: Session, acts: seq<Action>, encode: string -> string)
    requires Valid(s) && AllowedRun(s, acts, encode)
    ensures Run(s, acts, encode).Some? && Valid(Run(s, acts, encode).value)
    decreases |acts|
  {
    if |acts| > 0 {
      StepKeepsValid(s, acts[0], encode);
      RunKeepsValid(Step(s, acts[0], encode).value, acts[1..], encode);
    }
  }

  /** Every session the screen reaches through allowed handlers has a non-empty tab
      list with distinct ids and an active id that names one of them. */
  lemma ReachableIsValid(acts: seq<Action>, encode: string -> string)
    requires AllowedRun(Initial(), acts, encode)
    ensures Run(Initial(), acts, encode).Some?
    ensures var s := Run(Initial(), acts, encode).value;
      |s.tabs| > 0 && HasTab(s.tabs, s.activeTabId) && KeysDistinct(s.tabs, TabId)
  {
    InitialValid();
    RunKeepsValid(Initial(), acts, encode);
  }
}
