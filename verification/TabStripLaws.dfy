/** What the tab strip allocator guarantees for every width, tab count and active tab. */
module TabStripLaws {
  import opened Lists
  import opened Text
  import opened TabStrip

  // ----- The arithmetic -----

  lemma OverflowShape(available: nat, count: nat)
    requires Overflows(available, count)
    ensures var q, visible := available / MINIMUM, VisibleCount(available, count);
            && visible == Max(1, q) < count + 1
            && (available >= MINIMUM ==> visible == q)
            && q * MINIMUM <= available < (q + 1) * MINIMUM
  {
  }

  /**
   * The visible tabs are a contiguous run, at least one, and the active tab is among them. It is
   * the leftmost such run: no tab is hidden on the left, or the active one is the last shown.
   */
  lemma VisibleRun(available: nat, count: nat, active: nat)
    requires active < count
    ensures var visible, first := VisibleCount(available, count), FirstVisible(available, count, active);
            1 <= visible && 0 <= first <= active < first + visible <= count
            && (first == 0 || active == first + visible - 1)
  {
    if Overflows(available, count) { OverflowShape(available, count); }
  }

  lemma WidthInRange(available: nat, visible: nat)
    ensures 44 <= TabWidth(available, visible) <= 184
  {
    if visible > 0 && available < visible * NATURAL {
      QuotientBelow(available, visible, NATURAL);
    }
  }

  /** An equal share, rounded down, as far as that is not less than 44 or more than 184. */
  lemma WidthIsShare(available: nat, visible: nat, share: nat)
    requires 0 < visible && visible * share <= available < visible * (share + 1)
    ensures TabWidth(available, visible) == if share < 44 then 44 else if share > 184 then 184 else share
  {
    ShareIs(available, visible, share);
    if available < visible * NATURAL {
      QuotientBelow(available, visible, NATURAL);
    } else {
      QuotientAtLeast(available, visible, NATURAL);
    }
  }

  lemma ShareIs(available: nat, visible: nat, share: nat)
    requires 0 < visible && visible * share <= available < visible * (share + 1)
    ensures available / visible == share
  {
    QuotientBelow(available, visible, share + 1);
    QuotientAtLeast(available, visible, share);
  }

  lemma TimesMonotone(n: nat, a: nat, b: nat)
    ensures a <= b ==> n * a <= n * b
  {
  }

  lemma QuotientBelow(a: nat, n: nat, b: nat)
    requires n > 0 && a < n * b
    ensures a / n < b
  {
    var q := a / n;
    assert n * q <= a;
    TimesMonotone(n, b, q);
  }

  lemma QuotientAtLeast(a: nat, n: nat, b: nat)
    requires n > 0 && a >= n * b
    ensures a / n >= b
  {
    var q := a / n;
    assert a < n * (q + 1);
    TimesMonotone(n, q + 1, b);
  }

  /** As long as one minimal tab fits, an equal share is never below the minimum. */
  lemma ShareAboveMinimum(available: nat, count: nat)
    requires 0 < count && MINIMUM <= available
    ensures var visible := VisibleCount(available, count);
            0 < visible && visible * MINIMUM <= available
  {
    if Overflows(available, count) { OverflowShape(available, count); }
  }

  /** The visible tabs fit into the available width exactly when one minimal tab does. */
  lemma TabsFitIff(available: nat, count: nat)
    requires 0 < count
    ensures var visible := VisibleCount(available, count);
            visible * TabWidth(available, visible) <= available <==> 44 <= available
  {
    var visible := VisibleCount(available, count);
    if MINIMUM <= available {
      ShareAboveMinimum(available, count);
      if available < visible * NATURAL {
        QuotientAtLeast(available, visible, MINIMUM);
        assert visible * (available / visible) <= available;
      }
    } else {
      WidthInRange(available, visible);
      VisibleRun(available, count, 0);
      assert visible * TabWidth(available, visible) >= TabWidth(available, visible);
    }
  }

  /** Tabs are only hidden when one more would not fit even at 44 pixels. */
  lemma HiddenMeansFull(available: nat, count: nat)
    requires VisibleCount(available, count) < count
    ensures (VisibleCount(available, count) + 1) * 44 > available
  {
    OverflowShape(available, count);
  }

  /** Below the natural width the strip is used up but for less than a pixel a tab. */
  lemma SlackBelowCount(available: nat, count: nat)
    requires 0 < count && MINIMUM <= available < VisibleCount(available, count) * NATURAL
    ensures var visible := VisibleCount(available, count);
            0 <= available - visible * TabWidth(available, visible) < visible
  {
    var visible := VisibleCount(available, count);
    ShareAboveMinimum(available, count);
    QuotientAtLeast(available, visible, MINIMUM);
    assert available == visible * (available / visible) + available % visible;
  }

  /** A wider strip never shows fewer tabs. */
  lemma VisibleMonotone(narrow: nat, wide: nat, count: nat)
    requires narrow <= wide
    ensures VisibleCount(narrow, count) <= VisibleCount(wide, count)
  {
    if Overflows(narrow, count) { OverflowShape(narrow, count); }
    if Overflows(wide, count) {
      OverflowShape(wide, count);
      assert narrow / MINIMUM <= wide / MINIMUM;
    }
  }

  // ----- The layout -----

  /** The first child starts at zero and every other where the one before it ends. */
  ghost predicate Gapless(placed: seq<Placement>) {
    forall i :: 0 <= i < |placed| ==> placed[i].x == End(placed[..i])
  }

  lemma {:induction false} LayoutIsGapless(state: Option<State>, children: seq<Widget>, placeholder: nat, tab: nat,
                                           first: int, visible: nat, n: nat)
    requires n <= |children|
    ensures Gapless(Layout(state, children, placeholder, tab, first, visible, n))
  {
    if n == 0 {
    } else {
      LayoutIsGapless(state, children, placeholder, tab, first, visible, n - 1);
      var before := Layout(state, children, placeholder, tab, first, visible, n - 1);
      var r := Layout(state, children, placeholder, tab, first, visible, n);
      assert forall i :: 0 <= i <= |before| ==> before[..i] == r[..i];
    }
  }

  function Count(state: Option<State>, children: seq<Widget>): nat { |TabChildren(state, children)| }

  function Placeholders(state: Option<State>, children: seq<Widget>): nat {
    if children == [] then 0
    else
      var n := |children| - 1;
      Placeholders(state, children[..n]) + if IsPlaceholder(state, children[n]) then 1 else 0
  }

  /** How many of the first `count` tabs lie in the visible run. */
  function Shown(count: nat, first: int, visible: nat): nat {
    Max(0, Clamp(count - first, 0, visible))
  }

  lemma {:induction false} LayoutWidth(state: Option<State>, children: seq<Widget>, placeholder: nat, tab: nat,
                                       first: int, visible: nat, n: nat)
    requires n <= |children| && 0 <= first
    ensures var r := Layout(state, children, placeholder, tab, first, visible, n);
            var shown := Shown(Count(state, children[..n]), first, visible);
            && End(r) == Placeholders(state, children[..n]) * placeholder + shown * tab
            && |r| == Placeholders(state, children[..n]) + shown
  {
    hide TabChildren, End, IsPlaceholder, Placeholders;
    if n == 0 {
      NothingCounted(state, children);
    } else {
      LayoutWidth(state, children, placeholder, tab, first, visible, n - 1);
      var before := Layout(state, children, placeholder, tab, first, visible, n - 1);
      var child, count := children[n - 1], Count(state, children[..n - 1]);
      CountOne(state, children, n);
      EndAppend(before, child, placeholder);
      EndAppend(before, child, tab);
      ShownOne(count, first, visible);
      OneMore(Placeholders(state, children[..n - 1]), placeholder);
      OneMore(Shown(count, first, visible), tab);
    }
  }

  lemma NothingCounted(state: Option<State>, children: seq<Widget>)
    ensures Count(state, children[..0]) == 0 && Placeholders(state, children[..0]) == 0 && End([]) == 0
  {
  }

  lemma CountOne(state: Option<State>, children: seq<Widget>, n: nat)
    requires 0 < n <= |children|
    ensures var c, p := Count(state, children[..n - 1]), Placeholders(state, children[..n - 1]);
            if IsPlaceholder(state, children[n - 1]) then
              Count(state, children[..n]) == c && Placeholders(state, children[..n]) == p + 1
            else Count(state, children[..n]) == c + 1 && Placeholders(state, children[..n]) == p
  {
    assert children[..n][..n - 1] == children[..n - 1];
  }

  lemma EndAppend(placed: seq<Placement>, child: Widget, width: nat)
    ensures End(placed + [Placement(child, End(placed), width)]) == End(placed) + width
  {
  }

  lemma ShownOne(count: nat, first: int, visible: nat)
    requires 0 <= first
    ensures Shown(count + 1, first, visible)
            == Shown(count, first, visible) + if first <= count < first + visible then 1 else 0
  {
  }

  /** The tabs among the placed children, from left to right. */
  function PlacedTabs(state: Option<State>, placed: seq<Placement>): seq<Widget> {
    if placed == [] then []
    else
      var n := |placed| - 1;
      PlacedTabs(state, placed[..n]) + if IsPlaceholder(state, placed[n].child) then [] else [placed[n].child]
  }

  lemma PlacedAppend(state: Option<State>, placed: seq<Placement>, p: Placement)
    ensures PlacedTabs(state, placed + [p])
            == PlacedTabs(state, placed) + if IsPlaceholder(state, p.child) then [] else [p.child]
  {
    assert (placed + [p])[..|placed|] == placed;
  }

  lemma ChildrenAppend(state: Option<State>, children: seq<Widget>, n: nat)
    requires 0 < n <= |children|
    ensures TabChildren(state, children[..n])
            == TabChildren(state, children[..n - 1])
               + if IsPlaceholder(state, children[n - 1]) then [] else [children[n - 1]]
  {
    assert children[..n][..n - 1] == children[..n - 1];
  }

  lemma RunAppend<T>(tabs: seq<T>, x: T, first: nat, visible: nat)
    ensures var r, t := tabs[Min(first, |tabs|)..Min(first + visible, |tabs|)], tabs + [x];
            t[Min(first, |t|)..Min(first + visible, |t|)] == if first <= |tabs| < first + visible then r + [x] else r
  {
  }

  /** The tabs that are placed are those of the visible run, in order, and all have the one width. */
  lemma {:induction false} LayoutShowsRun(state: Option<State>, children: seq<Widget>, placeholder: nat, tab: nat,
                                          first: nat, visible: nat, n: nat)
    requires n <= |children|
    ensures var r := Layout(state, children, placeholder, tab, first, visible, n);
            var tabs := TabChildren(state, children[..n]);
            && PlacedTabs(state, r) == tabs[Min(first, |tabs|)..Min(first + visible, |tabs|)]
            && forall i :: 0 <= i < |r| ==> r[i].width == if IsPlaceholder(state, r[i].child) then placeholder else tab
  {
    hide TabChildren, PlacedTabs, IsPlaceholder, End;
    if n == 0 {
      NothingPlaced(state, children);
    } else {
      var child := children[n - 1];
      var before := Layout(state, children, placeholder, tab, first, visible, n - 1);
      LayoutShowsRun(state, children, placeholder, tab, first, visible, n - 1);
      ChildrenAppend(state, children, n);
      RunAppend(TabChildren(state, children[..n - 1]), child, first, visible);
      var width := if IsPlaceholder(state, child) then placeholder else tab;
      PlacedAppend(state, before, Placement(child, End(before), width));
      assert TabChildren(state, children[..n - 1]) + [] == TabChildren(state, children[..n - 1]);
    }
  }

  lemma NothingPlaced(state: Option<State>, children: seq<Widget>)
    ensures TabChildren(state, children[..0]) == [] && PlacedTabs(state, []) == []
  {
  }

  lemma OneMore(n: nat, width: nat)
    ensures (n + 1) * width == n * width + width
  {
  }

  ghost predicate NoDuplicates(children: seq<Widget>) {
    forall i, j :: 0 <= i < j < |children| ==> children[i] != children[j]
  }

  /** A strip has at most one placeholder, and it is measured when it is there. */
  lemma {:induction false} OnePlaceholder(state: Option<State>, children: seq<Widget>, natural: nat)
    requires NoDuplicates(children)
    ensures Placeholders(state, children) * PlaceholderWidth(state, children, natural)
            == PlaceholderWidth(state, children, natural)
    ensures Placeholders(state, children) <= 1
    ensures Placeholders(state, children) == 1 <==> exists i :: 0 <= i < |children| && IsPlaceholder(state, children[i])
    ensures PlaceholderWidth(state, children, natural) == if Placeholders(state, children) == 0 then 0 else natural
  {
    if children == [] {
    } else {
      OnePlaceholder(state, children[..|children| - 1], natural);
    }
  }

  /** `at` gives for each placement the position of its child, from left to right. */
  ghost predicate InOrder(children: seq<Widget>, placed: seq<Placement>, at: seq<nat>) {
    && |at| == |placed|
    && (forall i, j :: 0 <= i < j < |at| ==> at[i] < at[j])
    && forall i :: 0 <= i < |at| ==> at[i] < |children| && placed[i].child == children[at[i]]
  }

  lemma InOrderAppend(children: seq<Widget>, placed: seq<Placement>, at: seq<nat>, p: Placement, k: nat)
    requires InOrder(children, placed, at) && (forall i :: 0 <= i < |at| ==> at[i] < k)
    requires k < |children| && p.child == children[k]
    ensures InOrder(children, placed + [p], at + [k]) && forall i :: 0 <= i < |at + [k]| ==> (at + [k])[i] < k + 1
  {
  }

  lemma {:induction false} LayoutIsInOrder(state: Option<State>, children: seq<Widget>, placeholder: nat, tab: nat,
                                           first: int, visible: nat, n: nat) returns (at: seq<nat>)
    requires n <= |children|
    ensures InOrder(children, Layout(state, children, placeholder, tab, first, visible, n), at)
    ensures forall i :: 0 <= i < |at| ==> at[i] < n
  {
    hide TabChildren, IsPlaceholder, End;
    if n == 0 {
      at := [];
    } else {
      at := LayoutIsInOrder(state, children, placeholder, tab, first, visible, n - 1);
      var before := Layout(state, children, placeholder, tab, first, visible, n - 1);
      var r := Layout(state, children, placeholder, tab, first, visible, n);
      if |r| > |before| {
        assert r == before + [r[|before|]] && r[|before|].child == children[n - 1];
        hide Layout, InOrder;
        InOrderAppend(children, before, at, r[|before|], n - 1);
        at := at + [n - 1];
      }
    }
  }

  /** The children are placed in the order in which the strip has them. */
  lemma AllocationIsInOrder(state: Option<State>, children: seq<Widget>, natural: nat, width: int, height: int)
    returns (at: seq<nat>)
    ensures InOrder(children, AllocationOf(state, children, natural, width, height).1, at)
  {
    hide Layout, ActiveIndex, TabWidth, TabChildren, PlaceholderWidth, FirstVisible, VisibleCount;
    if width < 1 || height < 1 {
      at := [];
    } else {
      var placeholder, tabs := PlaceholderWidth(state, children, natural), TabChildren(state, children);
      var available := Available(width, placeholder);
      var visible := VisibleCount(available, |tabs|);
      var first := FirstVisible(available, |tabs|, ActiveIndex(state, tabs, |tabs|));
      at := LayoutIsInOrder(state, children, placeholder, TabWidth(available, visible), first, visible, |children|);
    }
  }

  lemma NoneVisible(available: nat, active: nat)
    ensures VisibleCount(available, 0) == 0 && FirstVisible(available, 0, active) == 0
  {
  }

  /**
   * The whole allocation: the run of visible tabs holds the active one and is the leftmost
   * that does, everything is laid out without gap or overlap, the tabs have one width between
   * 44 and 184, and the strip is not exceeded exactly when the placeholder leaves room
   * for one minimal tab.
   */
  lemma AllocationFits(state: Option<State>, children: seq<Widget>, natural: nat, width: int, height: int)
    requires NoDuplicates(children) && width >= 1 && height >= 1
    ensures var (shown, placed) := AllocationOf(state, children, natural, width, height);
            var tabs, placeholder := TabChildren(state, children), PlaceholderWidth(state, children, natural);
            var available := Available(width, placeholder);
            var visible := VisibleCount(available, |tabs|);
            && |shown| == |tabs|
            && (tabs != [] ==> shown[ActiveIndex(state, tabs, |tabs|)])
            && Gapless(placed)
            && |placed| == Placeholders(state, children) + visible
            && (tabs != [] ==>
                  var first := FirstVisible(available, |tabs|, ActiveIndex(state, tabs, |tabs|));
                  && 0 <= first && first + visible <= |tabs|
                  && PlacedTabs(state, placed) == tabs[first..first + visible]
                  && (forall i :: 0 <= i < |tabs| ==> (shown[i] <==> first <= i < first + visible))
                  && (first == 0 || ActiveIndex(state, tabs, |tabs|) == first + visible - 1))
            && (forall i :: 0 <= i < |placed| ==>
                  placed[i].width == if IsPlaceholder(state, placed[i].child) then placeholder
                                     else TabWidth(available, visible))
            && End(placed) == placeholder + visible * TabWidth(available, visible)
            && (End(placed) <= width <==> if tabs == [] then placeholder <= width else width - placeholder >= 44)
  {
    hide Layout, ActiveIndex, TabWidth, PlacedTabs, TabChildren, PlaceholderWidth, Placeholders, FirstVisible;
    hide VisibleCount, Gapless, End, IsPlaceholder, NoDuplicates;
    var tabs, placeholder := TabChildren(state, children), PlaceholderWidth(state, children, natural);
    var available := Available(width, placeholder);
    var visible := VisibleCount(available, |tabs|);
    var active := ActiveIndex(state, tabs, |tabs|);
    var first := FirstVisible(available, |tabs|, active);
    if tabs != [] {
      VisibleRun(available, |tabs|, active);
      TabsFitIff(available, |tabs|);
    } else {
      NoneVisible(available, active);
    }
    LayoutIsGapless(state, children, placeholder, TabWidth(available, visible), first, visible, |children|);
    LayoutWidth(state, children, placeholder, TabWidth(available, visible), first, visible, |children|);
    LayoutShowsRun(state, children, placeholder, TabWidth(available, visible), first, visible, |children|);
    OnePlaceholder(state, children, natural);
    assert children[..|children|] == children;
  }

  /** One tab in a strip of 43 pixels ends at 44. */
  lemma NarrowStripOverflows(tab: Widget)
    ensures End(AllocationOf(None, [tab], 0, 43, 1).1) == 44
  {
    hide AllocationOf, TabWidth, VisibleCount, PlaceholderWidth, TabChildren, End, NoDuplicates;
    OneTab(tab);
    WidthIsShare(43, 1, 43);
    AllocationFits(None, [tab], 0, 43, 1);
  }

  lemma OneTab(tab: Widget)
    ensures NoDuplicates([tab]) && TabChildren(None, [tab]) == [tab] && PlaceholderWidth(None, [tab], 0) == 0
    ensures VisibleCount(43, 1) == 1
  {
    assert [tab][..0] == [];
  }

  /** The window's list has the tab with the view that the window shows. */
  ghost predicate InFront(state: State, tab: Widget) {
    exists view: nat :: Record(tab, view) in state.tabs && state.view == Some(view)
  }

  lemma InFrontIff(state: State, tab: Widget)
    ensures InFront(state, tab) <==> ShowsView(state, tab)
  {
    if ShowsView(state, tab) {
      var i :| 0 <= i < |state.tabs| && state.tabs[i].tab == tab && Some(state.tabs[i].view) == state.view;
      assert Record(tab, state.tabs[i].view) in state.tabs;
    }
  }

  /** The active tab is the last one that is in front, or the first tab when none is. */
  lemma {:induction false} ActiveShowsView(state: State, tabs: seq<Widget>, n: nat)
    requires n <= |tabs|
    ensures var active := ActiveIndex(Some(state), tabs, n);
            if exists i :: 0 <= i < n && InFront(state, tabs[i]) then
              && active < n && InFront(state, tabs[active])
              && forall i :: active < i < n ==> !InFront(state, tabs[i])
            else active == 0
  {
    hide InFront, ShowsView;
    if n > 0 {
      InFrontIff(state, tabs[n - 1]);
      if !ShowsView(state, tabs[n - 1]) { ActiveShowsView(state, tabs, n - 1); }
    }
  }
}
