/** The width allocator of the tab strip (src/native_app.cpp:1734-1735, 1784-1868). */
module TabStrip {
  import opened Lists
  import opened Text

  const MINIMUM := 44
  const NATURAL := 184

  type Widget = nat

  /** A tab's widget and its web view, as the window's list records them. */
  datatype Record = Record(tab: Widget, view: nat)

  /** The window state behind a strip; the placeholder widget may not exist yet. */
  datatype State = State(tabs: seq<Record>, view: Option<nat>, placeholder: Option<Widget>)

  datatype Placement = Placement(child: Widget, x: nat, width: nat)

  function Clamp(v: int, low: int, high: int): int { if v < low then low else if v > high then high else v }

  // ----- The arithmetic -----

  function Available(width: int, placeholder: nat): nat { Max(0, width - placeholder) }

  predicate Overflows(available: nat, count: nat) { count > 0 && available < count * MINIMUM }

  function VisibleCount(available: nat, count: nat): nat {
    if Overflows(available, count) then Min(Max(1, available / MINIMUM), count) else count
  }

  function FirstVisible(available: nat, count: nat, active: nat): int {
    if Overflows(available, count) then
      var visible := VisibleCount(available, count);
      Clamp(active - visible + 1, 0, count - visible)
    else 0
  }

  function TabWidth(available: nat, visible: nat): nat {
    if visible > 0 && available < visible * NATURAL then Max(MINIMUM, available / visible) else NATURAL
  }

  // ----- The layout -----

  predicate IsPlaceholder(state: Option<State>, child: Widget) {
    state.Some? && state.value.placeholder == Some(child)
  }

  function TabChildren(state: Option<State>, children: seq<Widget>): seq<Widget> {
    if children == [] then []
    else
      var n := |children| - 1;
      TabChildren(state, children[..n]) + if IsPlaceholder(state, children[n]) then [] else [children[n]]
  }

  predicate ShowsView(state: State, tab: Widget) {
    exists i :: 0 <= i < |state.tabs| && state.tabs[i].tab == tab && Some(state.tabs[i].view) == state.view
  }

  /** The last of the first `n` tabs that shows the window's view, or the first tab. */
  function ActiveIndex(state: Option<State>, tabs: seq<Widget>, n: nat): (i: nat)
    requires n <= |tabs|
    ensures i == 0 || i < n
  {
    if state.None? || n == 0 then 0
    else if ShowsView(state.value, tabs[n - 1]) then n - 1
    else ActiveIndex(state, tabs, n - 1)
  }

  /** The strip from left to right, up to child `n`: visible tabs and the placeholder, each behind the last. */
  function Layout(state: Option<State>, children: seq<Widget>, placeholder: nat, tab: nat, first: int, visible: nat,
                  n: nat): (r: seq<Placement>)
    requires n <= |children|
  {
    if n == 0 then []
    else
      var before := Layout(state, children, placeholder, tab, first, visible, n - 1);
      var child := children[n - 1];
      var index := |TabChildren(state, children[..n - 1])|;
      if IsPlaceholder(state, child) then before + [Placement(child, End(before), placeholder)]
      else if first <= index < first + visible then before + [Placement(child, End(before), tab)]
      else before
  }

  /** Where the next child starts. */
  function End(placed: seq<Placement>): nat {
    if placed == [] then 0 else placed[|placed| - 1].x + placed[|placed| - 1].width
  }

  /** The width `gtk_widget_measure` reports for the placeholder, if the strip has one. */
  function PlaceholderWidth(state: Option<State>, children: seq<Widget>, natural: nat): nat {
    if children == [] then 0
    else if IsPlaceholder(state, children[|children| - 1]) then natural
    else PlaceholderWidth(state, children[..|children| - 1], natural)
  }

  /** The whole allocation: which tabs are visible and where everything goes; nothing for an empty area. */
  function AllocationOf(state: Option<State>, children: seq<Widget>, natural: nat, width: int, height: int)
    : (seq<bool>, seq<Placement>)
  {
    if width < 1 || height < 1 then ([], [])
    else
      var placeholder := PlaceholderWidth(state, children, natural);
      var tabs := TabChildren(state, children);
      var available := Available(width, placeholder);
      var visible := VisibleCount(available, |tabs|);
      var first := FirstVisible(available, |tabs|, ActiveIndex(state, tabs, |tabs|));
      (seq(|tabs|, i => first <= i < first + visible),
       Layout(state, children, placeholder, TabWidth(available, visible), first, visible, |children|))
  }

  /** The triple loop that looks for the active tab. */
  method FindActive(state: Option<State>, tabs: seq<Widget>) returns (active: nat)
    ensures active == ActiveIndex(state, tabs, |tabs|)
  {
    active := 0;
    if state.None? { return; }
    for i := 0 to |tabs|
      invariant active == ActiveIndex(state, tabs, i)
    {
      var records, j := state.value.tabs, 0;
      while j < |records|
        invariant j <= |records|
        invariant active == if exists k ::
                                 0 <= k < j && records[k].tab == tabs[i] && Some(records[k].view) == state.value.view
                            then i else ActiveIndex(state, tabs, i)
      {
        if records[j].tab == tabs[i] && Some(records[j].view) == state.value.view {
          active := i;
          break;
        }
        j := j + 1;
      }
      assert active == ActiveIndex(state, tabs, i + 1);
    }
  }

  /** The first walk over the children: the placeholder is measured, the tabs are collected. */
  method MeasureChildren(state: Option<State>, children: seq<Widget>, natural: nat)
    returns (placeholder: nat, tabs: seq<Widget>)
    ensures placeholder == PlaceholderWidth(state, children, natural) && tabs == TabChildren(state, children)
  {
    placeholder, tabs := 0, [];
    for i := 0 to |children|
      invariant placeholder == PlaceholderWidth(state, children[..i], natural)
      invariant tabs == TabChildren(state, children[..i])
    {
      assert children[..i + 1][..i] == children[..i];
      if IsPlaceholder(state, children[i]) { placeholder := natural; }
      else { tabs := tabs + [children[i]]; }
    }
    assert children[..|children|] == children;
  }

  method Allocate(state: Option<State>, children: seq<Widget>, natural: nat, width: int, height: int)
    returns (shown: seq<bool>, placed: seq<Placement>)
    ensures (shown, placed) == AllocationOf(state, children, natural, width, height)
    ensures width < 1 || height < 1 ==> shown == [] && placed == []
  {
    hide ActiveIndex, Layout, PlaceholderWidth, TabChildren;
    shown, placed := [], [];
    if width < 1 || height < 1 { return; }
    var placeholder, tabs := MeasureChildren(state, children, natural);
    var available: nat := Max(0, width - placeholder);
    var count := |tabs|;
    var visible, first := count, 0;
    var active := FindActive(state, tabs);
    if count > 0 && available < count * MINIMUM {
      visible := Min(Max(1, available / MINIMUM), count);
      first := Clamp(active - visible + 1, 0, count - visible);
    }
    shown := seq(count, i => first <= i < first + visible);

    var tab := NATURAL;
    if visible > 0 && available < visible * NATURAL { tab := Max(MINIMUM, available / visible); }
    placed := PlaceChildren(state, children, placeholder, tab, first, visible);
  }

  method PlaceChildren(state: Option<State>, children: seq<Widget>, placeholder: nat, tab: nat, first: int,
                       visible: nat)
    returns (placed: seq<Placement>)
    ensures placed == Layout(state, children, placeholder, tab, first, visible, |children|)
  {
    placed := [];
    var x, index := 0, 0;
    for i := 0 to |children|
      invariant x == End(placed) && index == |TabChildren(state, children[..i])|
      invariant placed == Layout(state, children, placeholder, tab, first, visible, i)
    {
      var child := children[i];
      assert children[..i + 1][..i] == children[..i];
      if !IsPlaceholder(state, child) {
        var isVisible := first <= index < first + visible;
        index := index + 1;
        if !isVisible { continue; }
      }
      var width := if IsPlaceholder(state, child) then placeholder else tab;
      placed := placed + [Placement(child, x, width)];
      x := x + width;
    }
  }
}
