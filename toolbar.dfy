/**
 * The `DevToolbar` widget: its five pieces of UI state, the events that change
 * them, and the rendering decisions that are a pure function of the state.
 *
 * The event handlers are pure transitions on `UiState` (one per event, plus
 * `Step` that dispatches on an `Event`); the class `DevToolbar` holds the same
 * state in fields and has one method per event, each proved to perform that
 * transition. What is rendered is described as data (`View`), not markup.
 */
module Toolbar {
  import opened Wrappers

  datatype Position = BottomRight | BottomLeft | TopRight | TopLeft | Pane

  datatype Theme = Dark | Light | Auto

  /** A rendered React node, abstracted as its text. */
  type Node = string

  /** Tab content: a node shown as it is, or a zero-argument producer that is
      called afresh on every render of the tab. */
  datatype Content = Static(node: Node) | Producer(produce: () -> Node)

  datatype Tab = Tab(id: string, caption: string, icon: string, content: Content)

  /** A CSS length: the host's `defaultPaneHeight` text until the first accepted
      drag, then a whole number of pixels. */
  datatype Length = Css(text: string) | Px(n: int)

  /** The props the host passes; `defaultTab` is `None` when the prop is omitted. */
  datatype Props = Props(
    tabs: seq<Tab>,
    position: Position,
    defaultTab: Option<string>,
    theme: Theme,
    hideInProduction: bool,
    title: string,
    width: string,
    maxHeight: string,
    defaultPaneHeight: string)

  /** The props with every optional one left at its default. */
  function DefaultProps(tabs: seq<Tab>): Props {
    Props(tabs, BottomRight, None, Auto, true, "Dev", "320px", "400px", "300px")
  }

  /** The widget's private state: `isCollapsed`, `activeTab`, `isVisible`,
      `paneHeight` and `isResizing`. */
  datatype UiState = UiState(
    collapsed: bool,
    activeTab: string,
    visible: bool,
    paneHeight: Length,
    resizing: bool)

  /** Some tab of the list has this id. */
  predicate IsTabId(tabs: seq<Tab>, id: string) {
    exists i | 0 <= i < |tabs| :: tabs[i].id == id
  }

  /** The position of the first tab with that id, if any. */
  function FindTabIndex(tabs: seq<Tab>, id: string): (r: Option<nat>)
    ensures r.None? <==> !IsTabId(tabs, id)
    ensures r.Some? ==> r.value < |tabs| && tabs[r.value].id == id
                        && forall j | 0 <= j < r.value :: tabs[j].id != id
  {
    if tabs == [] then None
    else if tabs[0].id == id then Some(0)
    else
      var r := FindTabIndex(tabs[1..], id);
      assert IsTabId(tabs, id) ==> IsTabId(tabs[1..], id) by {
        if IsTabId(tabs, id) {
          var i :| 0 <= i < |tabs| && tabs[i].id == id;
          assert tabs[1..][i - 1].id == id;
        }
      }
      if r.Some? then Some(r.value + 1) else None
  }

  /** `tabs.find(tab => tab.id === id)`: the first tab with that id. */
  function FindTab(tabs: seq<Tab>, id: string): Option<Tab> {
    match FindTabIndex(tabs, id)
    case Some(k) => Some(tabs[k])
    case None => None
  }

  /** The initial active tab: `defaultTab || tabs[0]?.id || ''`. */
  function InitialTab(defaultTab: Option<string>, tabs: seq<Tab>): string {
    if defaultTab.Some? && defaultTab.value != "" then defaultTab.value
    else if tabs != [] then tabs[0].id
    else ""
  }

  /** The state on first render: collapsed, invisible, not resizing. */
  function Init(p: Props): UiState {
    UiState(true, InitialTab(p.defaultTab, p.tabs), false, Css(p.defaultPaneHeight), false)
  }

  /** The one-off visibility decision taken after mount. */
  function Mount(p: Props, s: UiState, isClient: bool, nodeEnv: string): UiState {
    s.(visible := !p.hideInProduction || (isClient && nodeEnv == "development"))
  }

  /** The round toggle button. */
  function ToggleClick(s: UiState): UiState {
    s.(collapsed := !s.collapsed)
  }

  /** The close button in the panel header. */
  function CloseClick(s: UiState): UiState {
    s.(collapsed := true)
  }

  /** A button of the tab bar. */
  function TabClick(s: UiState, id: string): UiState {
    s.(activeTab := id)
  }

  /** Pressing the resize handle at the top of the pane. */
  function HandlePress(s: UiState): UiState {
    s.(resizing := true)
  }

  /** The smallest pane height a drag may set. */
  const MinPaneHeight := 100

  /** A drag height is accepted when it lies in `[100, 0.8 * innerHeight]`
      (the upper bound written without fractions). */
  predicate AcceptedHeight(h: int, innerHeight: int) {
    MinPaneHeight <= h && 5 * h <= 4 * innerHeight
  }

  /** A document mouse move: the listener exists only while resizing; a height
      outside the accepted range is ignored, not clamped. */
  function MouseMove(s: UiState, clientY: int, innerHeight: int): UiState {
    if !s.resizing then s
    else
      var h := innerHeight - clientY;
      if AcceptedHeight(h, innerHeight) then s.(paneHeight := Px(h)) else s
  }

  /** A document mouse up: the listener exists only while resizing. */
  function MouseUp(s: UiState): UiState {
    if s.resizing then s.(resizing := false) else s
  }

  /** A document key press: the listener exists only in pane mode with the panel open. */
  function KeyDown(p: Props, s: UiState, key: string): UiState {
    if p.position != Pane || s.collapsed then s
    else if key == "Escape" then s.(collapsed := true)
    else s
  }

  /** The panel (with its close button) is on screen. */
  predicate PanelShown(s: UiState) {
    s.visible && !s.collapsed
  }

  /** The resize handle is on screen. */
  predicate HandleShown(p: Props, s: UiState) {
    PanelShown(s) && p.position == Pane
  }

  /** The tab bar is on screen. */
  predicate TabBarShown(p: Props, s: UiState) {
    PanelShown(s) && |p.tabs| > 1
  }

  datatype Event =
    | Mounted(isClient: bool, nodeEnv: string)
    | ToggleClicked
    | CloseClicked
    | TabClicked(index: nat)
    | HandlePressed
    | MouseMoved(clientY: int, innerHeight: int)
    | MouseReleased
    | KeyPressed(key: string)

  /** An event can occur: a click needs its element on screen; document events can always occur. */
  predicate Enabled(p: Props, s: UiState, e: Event) {
    match e
    case ToggleClicked => s.visible
    case CloseClicked => PanelShown(s)
    case TabClicked(i) => TabBarShown(p, s) && i < |p.tabs|
    case HandlePressed => HandleShown(p, s)
    case _ => true
  }

  function Step(p: Props, s: UiState, e: Event): UiState {
    match e
    case Mounted(isClient, nodeEnv) => Mount(p, s, isClient, nodeEnv)
    case ToggleClicked => ToggleClick(s)
    case CloseClicked => CloseClick(s)
    case TabClicked(i) => if i < |p.tabs| then TabClick(s, p.tabs[i].id) else s
    case HandlePressed => HandlePress(s)
    case MouseMoved(y, h) => MouseMove(s, y, h)
    case MouseReleased => MouseUp(s)
    case KeyPressed(k) => KeyDown(p, s, k)
  }

  /** Every event of the sequence is enabled in the state it meets. */
  predicate Feasible(p: Props, s: UiState, es: seq<Event>)
    decreases |es|
  {
    es == [] || (Enabled(p, s, es[0]) && Feasible(p, Step(p, s, es[0]), es[1..]))
  }

  function Run(p: Props, s: UiState, es: seq<Event>): UiState
    decreases |es|
  {
    if es == [] then s else Run(p, Step(p, s, es[0]), es[1..])
  }

  /** The host's tab configuration names an existing tab when it names one at all. */
  predicate TabsConsistent(p: Props) {
    p.tabs != [] && (p.defaultTab.None? || p.defaultTab.value == "" || IsTabId(p.tabs, p.defaultTab.value))
  }

  /** What every reachable state satisfies: only the pane can be resizing, an
      accepted drag height is at least 100, and with consistent tabs the
      active tab is one of them. */
  predicate Invariant(p: Props, s: UiState) {
    && (s.resizing ==> p.position == Pane)
    && (s.paneHeight.Px? ==> MinPaneHeight <= s.paneHeight.n)
    && (TabsConsistent(p) ==> IsTabId(p.tabs, s.activeTab))
  }

  // ----- Rendering decisions -----

  datatype ButtonView = ButtonView(anchor: Position, inset: int, rotated: bool, dark: bool)

  datatype TabButton = TabButton(id: string, caption: string, highlighted: bool)

  datatype PanelView = PanelView(
    width: Length,
    height: Length,
    bordered: bool,
    handle: bool,
    tabBar: Option<seq<TabButton>>,
    content: Option<Node>,
    dark: bool)

  datatype ToolbarView = ToolbarView(button: ButtonView, panel: Option<PanelView>)

  /** Every theme but `light` (so also `auto`) gets the dark colours. */
  predicate IsDark(t: Theme) {
    t != Light
  }

  /** What a tab shows: a producer is called, anything else is shown as it is. */
  function Display(c: Content): Node {
    match c
    case Static(n) => n
    case Producer(f) => f()
  }

  function TabButtons(tabs: seq<Tab>, active: string): (bs: seq<TabButton>)
    ensures |bs| == |tabs|
    ensures forall i | 0 <= i < |tabs| :: bs[i] == TabButton(tabs[i].id, tabs[i].caption, tabs[i].id == active)
  {
    seq(|tabs|, i requires 0 <= i < |tabs| => TabButton(tabs[i].id, tabs[i].caption, tabs[i].id == active))
  }

  function ButtonFor(p: Props, s: UiState): ButtonView {
    if p.position == Pane then ButtonView(BottomRight, 12, !s.collapsed, IsDark(p.theme))
    else ButtonView(p.position, if s.collapsed then 12 else 8, !s.collapsed, IsDark(p.theme))
  }

  function PanelFor(p: Props, s: UiState): PanelView {
    var pane := p.position == Pane;
    PanelView(
      if pane then Css("100%") else Css(p.width),
      if pane then s.paneHeight else Css(p.maxHeight),
      !pane,
      pane,
      if |p.tabs| > 1 then Some(TabButtons(p.tabs, s.activeTab)) else None,
      match FindTab(p.tabs, s.activeTab) { case Some(t) => Some(Display(t.content)) case None => None },
      IsDark(p.theme))
  }

  /** What the widget renders: nothing at all while invisible; otherwise the
      toggle button, and the panel exactly when it is not collapsed, with the
      tab bar exactly when there is more than one tab. The pane fills the
      width at the dragged height; a corner panel uses the `width` and
      `maxHeight` props. */
  function View(p: Props, s: UiState): (v: Option<ToolbarView>)
    ensures v.None? <==> !s.visible
    ensures v.Some? ==> (v.value.panel.Some? <==> !s.collapsed)
    ensures v.Some? && v.value.panel.Some? ==>
      var pv := v.value.panel.value;
      && (pv.tabBar.Some? <==> |p.tabs| > 1)
      && (pv.handle <==> p.position == Pane)
      && (p.position == Pane ==> pv.width == Css("100%") && pv.height == s.paneHeight)
      && (p.position != Pane ==> pv.width == Css(p.width) && pv.height == Css(p.maxHeight))
      && (pv.dark <==> p.theme != Light)
  {
    if !s.visible then None
    else Some(ToolbarView(ButtonFor(p, s), if s.collapsed then None else Some(PanelFor(p, s))))
  }

  /** `useDevToolbarTab`: a tab made of exactly its arguments. */
  function UseDevToolbarTab(id: string, caption: string, icon: string, content: Content): (t: Tab)
    ensures t.id == id && t.caption == caption && t.icon == icon
    ensures Display(t.content) == Display(content)
  {
    Tab(id, caption, icon, content)
  }

  // ----- Properties -----

  /** The state before the visibility decision renders nothing, so the server
      markup and the first client render agree. */
  lemma InitialRendersNothing(p: Props)
    ensures Init(p).collapsed && !Init(p).resizing && !Init(p).visible
    ensures View(p, Init(p)) == None
  {
  }

  /** Visibility after mount: always with `hideInProduction` off; otherwise only
      on the client in the development build. */
  lemma MountVisibility(p: Props, s: UiState, isClient: bool, nodeEnv: string)
    ensures View(p, Mount(p, s, isClient, nodeEnv)).Some?
            <==> !p.hideInProduction || (isClient && nodeEnv == "development")
    ensures Mount(p, s, isClient, nodeEnv).(visible := s.visible) == s
  {
  }

  /** The toggle button flips `isCollapsed`: two clicks restore the state, and
      nothing else changes. */
  lemma ToggleTwiceRestores(s: UiState)
    ensures ToggleClick(s).collapsed != s.collapsed
    ensures ToggleClick(s).(collapsed := s.collapsed) == s
    ensures ToggleClick(ToggleClick(s)) == s
  {
  }

  /** The close button collapses, is idempotent and changes nothing else. */
  lemma CloseIdempotent(s: UiState)
    ensures CloseClick(s).collapsed
    ensures CloseClick(s).(collapsed := s.collapsed) == s
    ensures CloseClick(CloseClick(s)) == CloseClick(s)
  {
  }

  /** A mouse move changes nothing unless resizing, and then only the pane
      height, to `innerHeight - clientY`, and only when that lies in
      `[100, 0.8 * innerHeight]`; an out-of-range drag leaves the height as it was. */
  lemma MouseMoveBounds(s: UiState, clientY: int, innerHeight: int)
    ensures !s.resizing ==> MouseMove(s, clientY, innerHeight) == s
    ensures MouseMove(s, clientY, innerHeight).(paneHeight := s.paneHeight) == s
    ensures MouseMove(s, clientY, innerHeight).paneHeight != s.paneHeight ==>
      && s.resizing
      && MouseMove(s, clientY, innerHeight).paneHeight == Px(innerHeight - clientY)
      && 100 <= innerHeight - clientY
      && 5 * (innerHeight - clientY) <= 4 * innerHeight
    ensures s.resizing && !AcceptedHeight(innerHeight - clientY, innerHeight) ==>
      MouseMove(s, clientY, innerHeight) == s
    ensures s.resizing && AcceptedHeight(innerHeight - clientY, innerHeight) ==>
      MouseMove(s, clientY, innerHeight) == s.(paneHeight := Px(innerHeight - clientY))
  {
  }

  /** Any mouse up ends resizing and changes nothing else. */
  lemma MouseUpEndsResizing(s: UiState)
    ensures !MouseUp(s).resizing
    ensures MouseUp(s).(resizing := s.resizing) == s
  {
  }

  /** Escape collapses exactly an open pane; any other key, a corner position or
      a collapsed panel leaves the whole state unchanged. */
  lemma EscapeOnlyClosesOpenPane(p: Props, s: UiState, key: string)
    ensures KeyDown(p, s, key) != s <==> p.position == Pane && !s.collapsed && key == "Escape"
    ensures KeyDown(p, s, key) != s ==> KeyDown(p, s, key) == CloseClick(s)
  {
  }

  /** With consistent tabs the initial active tab is one of them. */
  lemma InitialTabExists(p: Props)
    requires TabsConsistent(p)
    ensures IsTabId(p.tabs, Init(p).activeTab)
  {
    if p.defaultTab.None? || p.defaultTab.value == "" {
      assert p.tabs[0].id == Init(p).activeTab;
    }
  }

  /** Resizing can only begin from the handle, which only the pane has. */
  lemma StepPreservesInvariant(p: Props, s: UiState, e: Event)
    requires Invariant(p, s) && Enabled(p, s, e)
    ensures Invariant(p, Step(p, s, e))
  {
    match e
    case TabClicked(i) =>
      if TabsConsistent(p) {
        assert p.tabs[i].id == Step(p, s, e).activeTab;
      }
    case _ =>
  }

  /** Every state reachable from mount by events that can occur satisfies the invariant. */
  lemma {:induction false} ReachableInvariant(p: Props, es: seq<Event>)
    requires Feasible(p, Init(p), es)
    ensures Invariant(p, Run(p, Init(p), es))
  {
    if TabsConsistent(p) {
      InitialTabExists(p);
    }
    RunPreservesInvariant(p, Init(p), es);
  }

  lemma {:induction false} RunPreservesInvariant(p: Props, s: UiState, es: seq<Event>)
    requires Invariant(p, s) && Feasible(p, s, es)
    ensures Invariant(p, Run(p, s, es))
    decreases |es|
  {
    if es != [] {
      StepPreservesInvariant(p, s, es[0]);
      RunPreservesInvariant(p, Step(p, s, es[0]), es[1..]);
    }
  }

  /** A tab click makes that tab the active one. */
  lemma TabClickSelects(p: Props, s: UiState, i: nat)
    requires i < |p.tabs|
    ensures Step(p, s, TabClicked(i)).activeTab == p.tabs[i].id
    ensures FindTab(p.tabs, Step(p, s, TabClicked(i)).activeTab).Some?
    ensures Step(p, s, TabClicked(i)).(activeTab := s.activeTab) == s
  {
  }

  /** Tab ids are unique. */
  predicate DistinctIds(tabs: seq<Tab>) {
    forall i, j | 0 <= i < j < |tabs| :: tabs[i].id != tabs[j].id
  }

  /** With unique ids the tab bar highlights exactly one button, that of the
      active tab, and the content area shows that same tab's content. */
  lemma HighlightMatchesContent(p: Props, s: UiState)
    requires DistinctIds(p.tabs) && IsTabId(p.tabs, s.activeTab)
    requires PanelShown(s) && |p.tabs| > 1
    ensures
      var pv := View(p, s).value.panel.value;
      && pv.tabBar.Some?
      && (exists k | 0 <= k < |p.tabs| ::
            && pv.tabBar.value[k].highlighted
            && (forall j | 0 <= j < |p.tabs| && j != k :: !pv.tabBar.value[j].highlighted)
            && pv.content == Some(Display(p.tabs[k].content)))
  {
    var pv := View(p, s).value.panel.value;
    var bs := TabButtons(p.tabs, s.activeTab);
    assert pv.tabBar == Some(bs);
    var k :| 0 <= k < |p.tabs| && p.tabs[k].id == s.activeTab;
    assert bs[k].highlighted;
    forall j | 0 <= j < |p.tabs| && j != k ensures !bs[j].highlighted {
      if j < k { assert p.tabs[j].id != p.tabs[k].id; }
      else { assert p.tabs[k].id != p.tabs[j].id; }
    }
    var m := FindTabIndex(p.tabs, s.activeTab).value;
    assert m == k;
    assert pv.content == Some(Display(p.tabs[k].content));
  }

  /** Whenever the panel is open, its content area shows the content of the
      first tab whose id is the active tab, and nothing when no tab has that id. */
  lemma ContentShown(p: Props, s: UiState)
    requires PanelShown(s)
    ensures View(p, s).Some? && View(p, s).value.panel.Some?
    ensures !IsTabId(p.tabs, s.activeTab) ==> View(p, s).value.panel.value.content.None?
    ensures forall k | 0 <= k < |p.tabs| && p.tabs[k].id == s.activeTab
                       && (forall j | 0 <= j < k :: p.tabs[j].id != s.activeTab) ::
              View(p, s).value.panel.value.content == Some(Display(p.tabs[k].content))
  {
    var c := View(p, s).value.panel.value.content;
    forall k | 0 <= k < |p.tabs| && p.tabs[k].id == s.activeTab
               && (forall j | 0 <= j < k :: p.tabs[j].id != s.activeTab)
      ensures c == Some(Display(p.tabs[k].content))
    {
      var m := FindTabIndex(p.tabs, s.activeTab).value;
      assert p.tabs[m].id == s.activeTab;
      assert m == k;
    }
  }

  /** The toolbar widget, with the state the component keeps in `useState`. */
  class DevToolbar {
    const props: Props
    var isCollapsed: bool
    var activeTab: string
    var isVisible: bool
    var paneHeight: Length
    var isResizing: bool

    function State(): UiState
      reads this
    {
      UiState(isCollapsed, activeTab, isVisible, paneHeight, isResizing)
    }

    ghost predicate Valid()
      reads this
    {
      Invariant(props, State())
    }

    /** First render. */
    constructor (props: Props)
      ensures this.props == props && State() == Init(props) && Valid()
    {
      this.props := props;
      isCollapsed := true;
      activeTab := InitialTab(props.defaultTab, props.tabs);
      isVisible := false;
      paneHeight := Css(props.defaultPaneHeight);
      isResizing := false;
      if TabsConsistent(props) { InitialTabExists(props); }
    }

    /** The effect that decides visibility once mounted. */
    method OnMount(isClient: bool, nodeEnv: string)
      requires Valid()
      modifies this
      ensures Valid() && State() == Step(props, old(State()), Mounted(isClient, nodeEnv))
    {
      isVisible := !props.hideInProduction || (isClient && nodeEnv == "development");
    }

    method OnToggleClick()
      requires Valid() && isVisible
      modifies this
      ensures Valid() && State() == Step(props, old(State()), ToggleClicked)
    {
      isCollapsed := !isCollapsed;
    }

    method OnCloseClick()
      requires Valid() && PanelShown(State())
      modifies this
      ensures Valid() && State() == Step(props, old(State()), CloseClicked)
    {
      isCollapsed := true;
    }

    method OnTabClick(i: nat)
      requires Valid() && TabBarShown(props, State()) && i < |props.tabs|
      modifies this
      ensures Valid() && State() == Step(props, old(State()), TabClicked(i))
    {
      StepPreservesInvariant(props, State(), TabClicked(i));
      activeTab := props.tabs[i].id;
    }

    method OnHandlePress()
      requires Valid() && HandleShown(props, State())
      modifies this
      ensures Valid() && State() == Step(props, old(State()), HandlePressed)
    {
      isResizing := true;
    }

    method OnMouseMove(clientY: int, innerHeight: int)
      requires Valid()
      modifies this
      ensures Valid() && State() == Step(props, old(State()), MouseMoved(clientY, innerHeight))
    {
      if isResizing {
        var newHeight := innerHeight - clientY;
        if MinPaneHeight <= newHeight && 5 * newHeight <= 4 * innerHeight {
          paneHeight := Px(newHeight);
        }
      }
    }

    method OnMouseUp()
      requires Valid()
      modifies this
      ensures Valid() && State() == Step(props, old(State()), MouseReleased)
    {
      if isResizing {
        isResizing := false;
      }
    }

    method OnKeyDown(key: string)
      requires Valid()
      modifies this
      ensures Valid() && State() == Step(props, old(State()), KeyPressed(key))
    {
      if props.position == Pane && !isCollapsed && key == "Escape" {
        isCollapsed := true;
      }
    }
  }
}
