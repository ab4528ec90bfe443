/** What holds of windows, tabs and drags over whole runs of the native shell. */
module NativeLaws {
  import opened Lists
  import opened Text
  import opened NativeShell

  datatype Event =
    | Open(privateMode: bool)
    | New(window: WindowId)
    | Close(tab: TabId)
    | CloseWindow(window: WindowId)
    | Select(tab: TabId)
    | Move(tab: TabId, target: WindowId, destination: nat)
    | Begin(tab: TabId)
    | Drop(target: WindowId, destination: nat)
    | Cancel(tab: TabId, byUser: bool)
    | End(tab: TabId)
    | Idle

  function Handle(s: Shell, e: Event): Shell {
    match e
    case Open(privateMode) => OpenWindow(s, privateMode)
    case New(window) => NewTabOf(s, window)
    case Close(tab) => CloseOf(s, tab)
    case CloseWindow(window) => CloseWindowOf(s, window)
    case Select(tab) => SelectOf(s, tab)
    case Move(tab, target, destination) => MoveOf(s, tab, target, destination)
    case Begin(tab) => BeginOf(s, tab)
    case Drop(target, destination) => DropOf(s, target, destination)
    case Cancel(tab, byUser) => CancelOf(s, tab, byUser)
    case End(tab) => EndOf(s, tab)
    case Idle => IdleOf(s)
  }

  function Run(s: Shell, events: seq<Event>): Shell
    decreases |events|
  {
    if events == [] then s else Run(Handle(s, events[0]), events[1..])
  }

  function Initial(appMode: bool): Shell {
    Shell(appMode, [], 1, 1, NO_DRAG)
  }

  // ----- The invariant -----

  /** A tab for the books: its id and the privacy it was made at. */
  type Entry = (TabId, bool)

  function Entries(tabs: seq<Tab>): seq<Entry> {
    seq(|tabs|, i requires 0 <= i < |tabs| => (tabs[i].id, tabs[i].born))
  }

  /** Every tab of every window, as often as it is listed. */
  ghost function Held(windows: seq<Window>): multiset<Entry> {
    if windows == [] then multiset{}
    else Held(windows[..|windows| - 1]) + multiset(Entries(windows[|windows| - 1].tabs))
  }

  ghost predicate Unique(held: multiset<Entry>, below: TabId) {
    && (forall e :: e in held ==> 0 < e.0 < below && held[e] == 1)
    && (forall e, f :: e in held && f in held && e.0 == f.0 ==> e == f)
  }

  ghost predicate WindowOk(w: Window, k: nat, appMode: bool) {
    && w.id == k + 1
    && (forall i :: 0 <= i < |w.tabs| ==> w.tabs[i].window == w.id && w.tabs[i].born == w.privateMode)
    && (w.tabs != [] ==> w.view.Some? && TabIndex(w.tabs, w.view.value) < |w.tabs|)
    && (appMode ==> |w.tabs| <= 1)
  }

  ghost predicate Shape(s: Shell) {
    s.nextWindowId == |s.windows| + 1 && forall k :: 0 <= k < |s.windows| ==> WindowOk(s.windows[k], k, s.appMode)
  }

  ghost predicate NoEmptyWindow(s: Shell) {
    forall k :: 0 <= k < |s.windows| && !s.windows[k].closed ==> s.windows[k].tabs != []
  }

  ghost predicate Booked(s: Shell) {
    0 < s.nextTabId && Unique(Held(s.windows), s.nextTabId)
  }

  /** At most one detach is queued, and it is the pending one. */
  ghost predicate DragOk(d: Drag) {
    d.queue == if d.pending.None? then [] else [d.pending.value]
  }

  ghost predicate Inv(s: Shell) {
    Shape(s) && Booked(s) && NoEmptyWindow(s) && DragOk(s.drag)
  }

  // ----- The books -----

  lemma {:induction false} HeldUpdate(windows: seq<Window>, k: nat, w: Window)
    requires k < |windows|
    ensures Held(windows[k := w]) + multiset(Entries(windows[k].tabs)) == Held(windows) + multiset(Entries(w.tabs))
  {
    hide Entries;
    var n := |windows| - 1;
    var all := windows[k := w];
    if k == n {
      assert all[..n] == windows[..n];
    } else {
      assert all[..n] == windows[..n][k := w] && all[n] == windows[n] && windows[..n][k] == windows[k];
      HeldUpdate(windows[..n], k, w);
      AddToBoth(Held(all[..n]), Held(windows[..n]), multiset(Entries(windows[k].tabs)), multiset(Entries(w.tabs)),
                multiset(Entries(windows[n].tabs)));
    }
  }

  lemma AddToBoth(a: multiset<Entry>, b: multiset<Entry>, x: multiset<Entry>, y: multiset<Entry>, z: multiset<Entry>)
    requires a + x == b + y
    ensures (a + z) + x == (b + z) + y
  {
    assert (a + z) + x == (a + x) + z;
  }

  lemma HeldAppend(windows: seq<Window>, w: Window)
    ensures Held(windows + [w]) == Held(windows) + multiset(Entries(w.tabs))
  {
    assert (windows + [w])[..|windows|] == windows;
  }

  lemma {:induction false} HeldHasPart(windows: seq<Window>, k: nat)
    requires k < |windows|
    ensures multiset(Entries(windows[k].tabs)) <= Held(windows)
  {
    hide Entries;
    if k < |windows| - 1 {
      HeldHasPart(windows[..|windows| - 1], k);
    }
  }

  lemma {:induction false} HeldHasParts(windows: seq<Window>, j: nat, k: nat)
    requires j < k < |windows|
    ensures multiset(Entries(windows[j].tabs)) + multiset(Entries(windows[k].tabs)) <= Held(windows)
  {
    hide Entries;
    var n := |windows| - 1;
    if k == n {
      HeldHasPart(windows[..n], j);
    } else {
      HeldHasParts(windows[..n], j, k);
    }
  }

  lemma {:induction false} HeldIsListed(windows: seq<Window>, e: Entry)
    requires e in Held(windows)
    ensures exists k :: 0 <= k < |windows| && e in Entries(windows[k].tabs)
  {
    hide Entries;
    var n := |windows| - 1;
    if e in Entries(windows[n].tabs) {
    } else {
      HeldIsListed(windows[..n], e);
      var k :| 0 <= k < n && e in Entries(windows[..n][k].tabs);
      assert e in Entries(windows[k].tabs);
    }
  }

  lemma WithAtEntries(tabs: seq<Tab>, i: nat, tab: Tab)
    requires i <= |tabs|
    ensures multiset(Entries(WithAt(tabs, i, tab))) == multiset(Entries(tabs)) + multiset{(tab.id, tab.born)}
  {
    var e := Entries(tabs);
    assert Entries(WithAt(tabs, i, tab)) == e[..i] + [(tab.id, tab.born)] + e[i..];
    assert e == e[..i] + e[i..];
  }

  lemma WithoutEntries(tabs: seq<Tab>, i: nat)
    requires i < |tabs|
    ensures multiset(Entries(tabs)) == multiset(Entries(Without(tabs, i))) + multiset{(tabs[i].id, tabs[i].born)}
  {
    var e := Entries(tabs);
    assert Entries(Without(tabs, i)) == e[..i] + e[i + 1..];
    assert e == e[..i] + [e[i]] + e[i + 1..];
  }

  lemma UniqueShrinks(held: multiset<Entry>, less: multiset<Entry>, below: TabId)
    requires Unique(held, below) && less <= held
    ensures Unique(less, below)
  {
  }

  lemma UniqueGrows(held: multiset<Entry>, next: TabId, born: bool)
    requires Unique(held, next) && 0 < next
    ensures Unique(held + multiset{(next, born)}, next + 1)
  {
    var more := held + multiset{(next, born)};
    assert (next, born) !in held;
    assert forall e :: e in more ==> e in held || e == (next, born);
  }

  // ----- One window -----

  lemma FoundAt(tabs: seq<Tab>, i: nat)
    requires i < |tabs|
    ensures TabIndex(tabs, tabs[i].id) < |tabs|
  {
  }

  lemma LeftIsOk(w: Window, i: nat, dangling: Option<TabId>, k: nat, appMode: bool)
    requires WindowOk(w, k, appMode) && i < |w.tabs|
    ensures WindowOk(Left(w, i, dangling), k, appMode)
    ensures !Left(w, i, dangling).closed ==> Left(w, i, dangling).tabs != []
    ensures multiset(Entries(w.tabs))
            == multiset(Entries(Left(w, i, dangling).tabs)) + multiset{(w.tabs[i].id, w.tabs[i].born)}
  {
    hide Entries, TabIndex, Without;
    WithoutEntries(w.tabs, i);
    LeftShowsOwn(w, i);
    LeftPointBack(w, i);
  }

  lemma LeftPointBack(w: Window, i: nat)
    requires i < |w.tabs|
    requires forall j :: 0 <= j < |w.tabs| ==> w.tabs[j].window == w.id && w.tabs[j].born == w.privateMode
    ensures var rest := Without(w.tabs, i);
            && |rest| == |w.tabs| - 1
            && forall j :: 0 <= j < |rest| ==> rest[j].window == w.id && rest[j].born == w.privateMode
  {
    var rest := Without(w.tabs, i);
    assert forall j :: 0 <= j < |rest| ==> rest[j] == w.tabs[if j < i then j else j + 1];
  }

  lemma LeftShowsOwn(w: Window, i: nat)
    requires i < |w.tabs| && w.view.Some? && TabIndex(w.tabs, w.view.value) < |w.tabs|
    ensures var rest := Without(w.tabs, i);
            && (w.view != Some(w.tabs[i].id) ==> TabIndex(rest, w.view.value) < |rest|)
            && (rest != [] ==> TabIndex(rest, rest[Min(i, |rest| - 1)].id) < |rest|)
  {
    var rest := Without(w.tabs, i);
    if rest != [] {
      FoundAt(rest, Min(i, |rest| - 1));
    }
    var j := TabIndex(w.tabs, w.view.value);
    if j != i {
      var n := if j < i then j else j - 1;
      assert rest[n] == w.tabs[j];
      FoundAt(rest, n);
    }
  }

  lemma InsertedIsOk(w: Window, i: nat, tab: Tab, k: nat, appMode: bool)
    requires WindowOk(w, k, appMode) && i <= |w.tabs| && (appMode ==> w.tabs == [])
    requires tab.window == w.id && tab.born == w.privateMode
    ensures WindowOk(w.(tabs := WithAt(w.tabs, i, tab), view := Some(tab.id)), k, appMode)
  {
    FoundAt(WithAt(w.tabs, i, tab), i);
  }

  lemma MovedIsOk(w: Window, i: nat, destination: nat, k: nat, appMode: bool)
    requires WindowOk(w, k, appMode) && i < |w.tabs|
    ensures WindowOk(MoveWithin(w, i, destination), k, appMode) && MoveWithin(w, i, destination).tabs != []
    ensures multiset(Entries(MoveWithin(w, i, destination).tabs)) == multiset(Entries(w.tabs))
  {
    var d, rest := Landing(i, Min(destination, |w.tabs|)), Without(w.tabs, i);
    WithoutEntries(w.tabs, i);
    WithAtEntries(rest, d, w.tabs[i]);
    MovedPointsBack(w, i, d);
    FoundInSame(w.tabs, WithAt(rest, d, w.tabs[i]), w.view.value);
  }

  lemma MovedPointsBack(w: Window, i: nat, d: nat)
    requires i < |w.tabs| && d < |w.tabs|
    requires forall j :: 0 <= j < |w.tabs| ==> w.tabs[j].window == w.id && w.tabs[j].born == w.privateMode
    ensures var moved := WithAt(Without(w.tabs, i), d, w.tabs[i]);
            && |moved| == |w.tabs|
            && forall j :: 0 <= j < |moved| ==> moved[j].window == w.id && moved[j].born == w.privateMode
  {
    var rest := Without(w.tabs, i);
    var moved := WithAt(rest, d, w.tabs[i]);
    LeftPointBack(w, i);
    assert forall j :: 0 <= j < |moved| ==>
        moved[j] == if j < d then rest[j] else if j == d then w.tabs[i] else rest[j - 1];
  }

  /** Two lists with the same entries find the same tabs. */
  lemma {:induction false} FoundInSame(tabs: seq<Tab>, others: seq<Tab>, id: TabId)
    requires multiset(Entries(tabs)) == multiset(Entries(others)) && TabIndex(tabs, id) < |tabs|
    ensures TabIndex(others, id) < |others|
  {
    var i := TabIndex(tabs, id);
    assert Entries(tabs)[i] in multiset(Entries(others));
    var j :| 0 <= j < |others| && Entries(others)[j] == Entries(tabs)[i];
    FoundAt(others, j);
  }

  // ----- Finding things -----

  lemma {:induction false} IndexOfWindow(windows: seq<Window>, k: nat)
    requires k < |windows| && forall j :: 0 <= j < k ==> windows[j].id != windows[k].id
    ensures WindowIndex(windows, windows[k].id) == k
  {
    if k == 0 {
    } else {
      IndexOfWindow(windows[1..], k - 1);
    }
  }

  /** The tab a pointer leads to stands in the window it points back to. */
  lemma BackPointer(s: Shell, id: TabId)
    requires Shape(s)
    ensures match FindTab(s.windows, id)
            case None => true
            case Some(tab) =>
              var k := OwnerIndex(s.windows, id);
              && k < |s.windows| && WindowIndex(s.windows, tab.window) == k && tab.window == k + 1
              && tab.id == id && tab.born == s.windows[k].privateMode
  {
    var k := OwnerIndex(s.windows, id);
    if k < |s.windows| {
      assert WindowOk(s.windows[k], k, s.appMode);
      assert forall j :: 0 <= j < k ==> WindowOk(s.windows[j], j, s.appMode);
      IndexOfWindow(s.windows, k);
    }
  }

  lemma IdOfIndex(s: Shell, window: WindowId)
    requires Shape(s)
    ensures WindowIndex(s.windows, window) < |s.windows| ==> window == WindowIndex(s.windows, window) + 1
  {
    var k := WindowIndex(s.windows, window);
    assert k < |s.windows| ==> WindowOk(s.windows[k], k, s.appMode);
  }

  lemma FoundIsHeld(s: Shell, id: TabId)
    ensures match FindTab(s.windows, id)
            case None => true
            case Some(tab) => tab.id == id && (id, tab.born) in Held(s.windows)
  {
    hide Held;
    var k := OwnerIndex(s.windows, id);
    if k < |s.windows| {
      var tabs := s.windows[k].tabs;
      assert Entries(tabs)[TabIndex(tabs, id)] == (id, tabs[TabIndex(tabs, id)].born);
      assert (id, tabs[TabIndex(tabs, id)].born) in multiset(Entries(tabs));
      HeldHasPart(s.windows, k);
    }
  }

  lemma HeldIsFound(s: Shell, e: Entry)
    requires e in Held(s.windows)
    ensures FindTab(s.windows, e.0).Some?
  {
    HeldIsListed(s.windows, e);
    var k :| 0 <= k < |s.windows| && e in Entries(s.windows[k].tabs);
    var tabs := s.windows[k].tabs;
    var i :| 0 <= i < |tabs| && Entries(tabs)[i] == e;
    FoundAt(tabs, i);
  }

  // ----- One step -----

  ghost predicate Keeps(s: Shell, r: Shell) {
    Shape(r) && r.appMode == s.appMode && r.nextTabId == s.nextTabId && Held(r.windows) == Held(s.windows)
  }

  lemma Gain(x: multiset<Entry>, y: multiset<Entry>, a: multiset<Entry>, b: multiset<Entry>, d: multiset<Entry>)
    requires x + a == y + b && b == a + d
    ensures x == y + d
  {
    forall e
      ensures x[e] == (y + d)[e]
    {
      assert (x + a)[e] == (y + b)[e];
    }
  }

  lemma UpdateShape(s: Shell, k: nat, w: Window)
    requires Shape(s) && k < |s.windows| && WindowOk(w, k, s.appMode)
    ensures Shape(s.(windows := s.windows[k := w]))
  {
  }

  lemma OpenEmptyKeeps(s: Shell, privateMode: bool)
    requires Shape(s)
    ensures Keeps(s, OpenEmpty(s, privateMode))
  {
    HeldAppend(s.windows, Window(s.nextWindowId, privateMode, [], None, false));
    assert Entries([]) == [];
  }

  lemma InsertStep(s: Shell, k: nat)
    requires Shape(s) && k < |s.windows| && (s.appMode ==> s.windows[k].tabs == [])
    ensures var r := InsertNew(s, k);
            && Shape(r) && r.windows[k].tabs != []
            && Held(r.windows) == Held(s.windows) + multiset{(s.nextTabId, s.windows[k].privateMode)}
  {
    hide Held, Entries;
    var w := s.windows[k];
    var tab, i := Tab(s.nextTabId, w.id, w.privateMode), InsertionIndex(w);
    assert WindowOk(w, k, s.appMode);
    InsertedIsOk(w, i, tab, k, s.appMode);
    var w' := w.(tabs := WithAt(w.tabs, i, tab), view := Some(tab.id));
    UpdateShape(s, k, w');
    WithAtEntries(w.tabs, i, tab);
    HeldUpdate(s.windows, k, w');
    Gain(Held(s.windows[k := w']), Held(s.windows), multiset(Entries(w.tabs)), multiset(Entries(w'.tabs)),
         multiset{(tab.id, tab.born)});
  }

  lemma CloseStep(s: Shell, id: TabId)
    requires Shape(s) && NoEmptyWindow(s)
    ensures var r := CloseOf(s, id);
            && Shape(r) && NoEmptyWindow(r) && r.nextTabId == s.nextTabId
            && match FindTab(s.windows, id)
               case None => r == s
               case Some(tab) => Held(s.windows) == Held(r.windows) + multiset{(id, tab.born)}
  {
    hide Held, FindTab, Left;
    BackPointer(s, id);
    match FindTab(s.windows, id) {
      case None =>
      case Some(tab) =>
        var k := OwnerIndex(s.windows, id);
        var w := s.windows[k];
        var i := TabIndex(w.tabs, id);
        FoundTab(s.windows, id);
        assert WindowOk(w, k, s.appMode);
        LeftIsOk(w, i, w.view, k, s.appMode);
        UpdateShape(s, k, Left(w, i, w.view));
        HeldUpdate(s.windows, k, Left(w, i, w.view));
        Gain(Held(s.windows), Held(s.windows[k := Left(w, i, w.view)]), multiset(Entries(Left(w, i, w.view).tabs)),
             multiset(Entries(w.tabs)), multiset{(id, tab.born)});
    }
  }

  lemma FoundTab(windows: seq<Window>, id: TabId)
    ensures match FindTab(windows, id)
            case None => OwnerIndex(windows, id) == |windows|
            case Some(tab) =>
              var k := OwnerIndex(windows, id);
              k < |windows| && TabIndex(windows[k].tabs, id) < |windows[k].tabs|
              && tab == windows[k].tabs[TabIndex(windows[k].tabs, id)]
  {
  }

  lemma MoveStep(s: Shell, id: TabId, target: WindowId, destination: nat)
    requires Shape(s)
    requires forall k :: 0 <= k < |s.windows| && !s.windows[k].closed && k + 1 != target ==> s.windows[k].tabs != []
    ensures var r := MoveOf(s, id, target, destination);
            && Keeps(s, r)
            && (Movable(s, id, target) ==> NoEmptyWindow(r))
            && (!Movable(s, id, target) ==> r == s)
  {
    hide Held, FindTab, Left, MoveWithin, Joined, Keeps;
    BackPointer(s, id);
    if Movable(s, id, target) {
      IdOfIndex(s, target);
      var t, k := WindowIndex(s.windows, target), OwnerIndex(s.windows, id);
      if k == t {
        MoveWithinStep(s, k, TabIndex(s.windows[k].tabs, id), destination);
      } else {
        MoveAcrossStep(s, k, t, TabIndex(s.windows[k].tabs, id), destination);
      }
    } else {
      KeepsItself(s);
    }
  }

  lemma KeepsItself(s: Shell)
    requires Shape(s)
    ensures Keeps(s, s)
  {
  }

  lemma MoveWithinStep(s: Shell, k: nat, i: nat, destination: nat)
    requires Shape(s) && k < |s.windows| && i < |s.windows[k].tabs|
    requires forall j :: 0 <= j < |s.windows| && !s.windows[j].closed && j != k ==> s.windows[j].tabs != []
    ensures var r := s.(windows := s.windows[k := MoveWithin(s.windows[k], i, destination)]);
            Keeps(s, r) && NoEmptyWindow(r)
  {
    hide Held, Entries, MoveWithin, WindowOk;
    var w := s.windows[k];
    assert WindowOk(w, k, s.appMode);
    MovedIsOk(w, i, destination, k, s.appMode);
    var moved := MoveWithin(w, i, destination);
    UpdateShape(s, k, moved);
    HeldUpdate(s.windows, k, moved);
    Gain(Held(s.windows[k := moved]), Held(s.windows), multiset(Entries(w.tabs)), multiset(Entries(moved.tabs)),
         multiset{});
  }

  lemma BornHere(w: Window, i: nat, k: nat, appMode: bool)
    requires WindowOk(w, k, appMode) && i < |w.tabs|
    ensures w.tabs[i].born == w.privateMode
  {
  }

  lemma MoveAcrossStep(s: Shell, k: nat, t: nat, i: nat, destination: nat)
    requires Shape(s) && !s.appMode && k < |s.windows| && t < |s.windows| && k != t && i < |s.windows[k].tabs|
    requires s.windows[k].privateMode == s.windows[t].privateMode
    requires forall j :: 0 <= j < |s.windows| && !s.windows[j].closed && j != t ==> s.windows[j].tabs != []
    ensures var source := s.windows[k];
            var r := s.(windows := s.windows[k := Left(source, i, None)]
                                            [t := Joined(s.windows[t], source.tabs[i], destination)]);
            Keeps(s, r) && NoEmptyWindow(r)
  {
    hide Held, Entries, Left, Joined, WindowOk;
    var source, w := s.windows[k], s.windows[t];
    assert WindowOk(source, k, s.appMode) && WindowOk(w, t, s.appMode);
    BornHere(source, i, k, s.appMode);
    var left, joined := Left(source, i, None), Joined(w, source.tabs[i], destination);
    LeftIsOk(source, i, None, k, s.appMode);
    JoinedIsOk(w, source.tabs[i], destination, t, s.appMode);
    var s1 := s.(windows := s.windows[k := left]);
    UpdateShape(s, k, left);
    HeldUpdate(s.windows, k, left);
    UpdateShape(s1, t, joined);
    HeldUpdate(s1.windows, t, joined);
    var e := multiset{(source.tabs[i].id, source.tabs[i].born)};
    Gain(Held(s.windows), Held(s1.windows), multiset(Entries(left.tabs)), multiset(Entries(source.tabs)), e);
    Gain(Held(s1.windows[t := joined]), Held(s1.windows), multiset(Entries(w.tabs)), multiset(Entries(joined.tabs)), e);
  }

  lemma JoinedIsOk(w: Window, tab: Tab, destination: nat, k: nat, appMode: bool)
    requires WindowOk(w, k, appMode) && !appMode && tab.born == w.privateMode
    ensures WindowOk(Joined(w, tab, destination), k, appMode) && Joined(w, tab, destination).tabs != []
    ensures multiset(Entries(Joined(w, tab, destination).tabs))
            == multiset(Entries(w.tabs)) + multiset{(tab.id, tab.born)}
  {
    InsertedIsOk(w, Min(destination, |w.tabs|), tab.(window := w.id), k, appMode);
    WithAtEntries(w.tabs, Min(destination, |w.tabs|), tab.(window := w.id));
  }

  // ----- Every event -----

  /** The privacy of a tab the event makes. */
  function Birth(s: Shell, e: Event): bool {
    match e
    case Open(privateMode) => privateMode
    case New(window) =>
      var k := WindowIndex(s.windows, window);
      k < |s.windows| && s.windows[k].privateMode
    case _ => false
  }

  /** The events that make a tab. */
  predicate MakesTab(s: Shell, e: Event) {
    e.Open? || (e.New? && WindowIndex(s.windows, e.window) < |s.windows|)
  }

  /** What an event adds to the books: the tab it makes. */
  function Gained(s: Shell, e: Event): multiset<Entry> {
    if MakesTab(s, e) then multiset{(s.nextTabId, Birth(s, e))} else multiset{}
  }

  /** What an event takes off the books: the tab that a close finds. */
  function Lost(s: Shell, e: Event): multiset<Entry> {
    if e.Close? && FindTab(s.windows, e.tab).Some? then multiset{(e.tab, FindTab(s.windows, e.tab).value.born)}
    else multiset{}
  }

  /** The books change by the one tab the event makes, or by the one it closes, and otherwise not at all. */
  ghost predicate Accounts(s: Shell, e: Event, r: Shell) {
    && r.nextTabId == s.nextTabId + (if MakesTab(s, e) then 1 else 0)
    && Held(r.windows) + Lost(s, e) == Held(s.windows) + Gained(s, e)
  }

  lemma OpenStep(s: Shell, privateMode: bool)
    requires Shape(s) && NoEmptyWindow(s)
    ensures var r := OpenWindow(s, privateMode);
            && Shape(r) && NoEmptyWindow(r) && r.nextTabId == s.nextTabId + 1
            && Held(r.windows) == Held(s.windows) + multiset{(s.nextTabId, privateMode)}
  {
    hide Held;
    OpenEmptyKeeps(s, privateMode);
    InsertStep(OpenEmpty(s, privateMode), |s.windows|);
  }

  lemma NewStep(s: Shell, window: WindowId)
    requires Shape(s) && NoEmptyWindow(s)
    ensures var r := NewTabOf(s, window);
            Shape(r) && NoEmptyWindow(r) && Accounts(s, New(window), r)
  {
    hide Held, OpenWindow;
    var k := WindowIndex(s.windows, window);
    if k < |s.windows| {
      if s.appMode && s.windows[k].tabs != [] {
        OpenStep(s, s.windows[k].privateMode);
      } else {
        InsertStep(s, k);
      }
    }
  }

  lemma SelectStep(s: Shell, id: TabId)
    requires Shape(s) && NoEmptyWindow(s)
    ensures Keeps(s, SelectOf(s, id)) && NoEmptyWindow(SelectOf(s, id))
  {
    hide FindTab, Held;
    BackPointer(s, id);
    match FindTab(s.windows, id) {
      case None =>
      case Some(tab) =>
        var k := OwnerIndex(s.windows, id);
        var w := s.windows[k];
        assert WindowOk(w, k, s.appMode);
        UpdateShape(s, k, w.(view := Some(id)));
        HeldUpdate(s.windows, k, w.(view := Some(id)));
        SameSum(Held(s.windows[k := w.(view := Some(id))]), Held(s.windows), multiset(Entries(w.tabs)));
    }
  }

  lemma SameSum(x: multiset<Entry>, y: multiset<Entry>, a: multiset<Entry>)
    requires x + a == y + a
    ensures x == y
  {
    Gain(x, y, a, a, multiset{});
  }

  lemma CloseWindowStep(s: Shell, window: WindowId)
    requires Shape(s) && NoEmptyWindow(s)
    ensures Keeps(s, CloseWindowOf(s, window)) && NoEmptyWindow(CloseWindowOf(s, window))
  {
    hide Held;
    var k := WindowIndex(s.windows, window);
    if k < |s.windows| {
      var w := s.windows[k];
      assert WindowOk(w, k, s.appMode);
      UpdateShape(s, k, w.(closed := true));
      HeldUpdate(s.windows, k, w.(closed := true));
      SameSum(Held(s.windows[k := w.(closed := true)]), Held(s.windows), multiset(Entries(w.tabs)));
    }
  }

  lemma DetachStep(s: Shell, request: TabId, k: nat)
    requires Shape(s) && Booked(s) && NoEmptyWindow(s) && !s.appMode
    requires k == OpenOwnerIndex(s.windows, request) < |s.windows|
    ensures var r := MoveOf(OpenEmpty(s, s.windows[k].privateMode), request, s.nextWindowId, 0);
            Keeps(s, r) && NoEmptyWindow(r) && r.drag == s.drag
  {
    hide Held, MoveOf, Movable;
    var s3 := OpenEmpty(s, s.windows[k].privateMode);
    OpenEmptyKeeps(s, s.windows[k].privateMode);
    DetachIsMovable(s, k, request);
    MoveStep(s3, request, s.nextWindowId, 0);
    MoveKeepsDrag(s3, request, s.nextWindowId, 0);
  }

  lemma IdleStep(s: Shell)
    requires Inv(s)
    ensures var r := IdleOf(s);
            Keeps(s, r) && NoEmptyWindow(r) && DragOk(r.drag)
  {
    hide Held, MoveOf, OpenEmpty;
    if s.drag.queue != [] {
      var s2 := s.(drag := s.drag.(queue := s.drag.queue[1..], pending := None));
      var k := if s.appMode then |s.windows| else OpenOwnerIndex(s.windows, s.drag.queue[0]);
      if k < |s.windows| {
        DetachStep(s2, s.drag.queue[0], k);
      }
    }
  }

  lemma MoveKeepsDrag(s: Shell, id: TabId, target: WindowId, destination: nat)
    ensures MoveOf(s, id, target, destination).drag == s.drag
  {
  }

  lemma {:induction false} OneOwner(s: Shell, id: TabId, k: nat)
    requires Shape(s) && Booked(s) && k < |s.windows| && TabIndex(s.windows[k].tabs, id) < |s.windows[k].tabs|
    ensures OwnerIndex(s.windows, id) == k
  {
    hide Held;
    var j := OwnerIndex(s.windows, id);
    var tabs, others := s.windows[k].tabs, s.windows[j].tabs;
    var e, f := Entries(tabs)[TabIndex(tabs, id)], Entries(others)[TabIndex(others, id)];
    assert e in multiset(Entries(tabs)) && f in multiset(Entries(others));
    HeldHasPart(s.windows, k);
    HeldHasPart(s.windows, j);
    assert e in Held(s.windows) && f in Held(s.windows) && e.0 == f.0;
    if j < k {
      HeldTwice(s.windows, j, k, e);
    }
  }

  lemma HeldTwice(windows: seq<Window>, j: nat, k: nat, e: Entry)
    requires j < k < |windows| && e in Entries(windows[j].tabs) && e in Entries(windows[k].tabs)
    ensures Held(windows)[e] >= 2
  {
    hide Entries;
    HeldHasParts(windows, j, k);
    assert (multiset(Entries(windows[j].tabs)) + multiset(Entries(windows[k].tabs)))[e] >= 2;
  }

  /** A queued tab that an open window still owns can be moved to the new window. */
  lemma DetachIsMovable(s: Shell, k: nat, id: TabId)
    requires Shape(s) && Booked(s) && !s.appMode && k == OpenOwnerIndex(s.windows, id) < |s.windows|
    ensures var s3 := OpenEmpty(s, s.windows[k].privateMode);
            && Movable(s3, id, s.nextWindowId)
            && OwnerIndex(s3.windows, id) == k && WindowIndex(s3.windows, s.nextWindowId) == |s.windows|
  {
    hide Held;
    var p := s.windows[k].privateMode;
    var s3 := OpenEmpty(s, p);
    OneOwner(s, id, k);
    OpenEmptyKeeps(s, p);
    assert s3.windows[k] == s.windows[k];
    OneOwner(s3, id, k);
    BackPointer(s3, id);
    assert forall j :: 0 <= j < |s.windows| ==> WindowOk(s3.windows[j], j, s.appMode);
    IndexOfWindow(s3.windows, |s.windows|);
  }

  /** Every event keeps the invariant and the books. */
  lemma HandleKeepsInv(s: Shell, e: Event)
    requires Inv(s)
    ensures Inv(Handle(s, e)) && Accounts(s, e, Handle(s, e))
  {
    HandleStep(s, e);
    BooksStayUnique(s, e, Handle(s, e));
  }

  lemma BooksStayUnique(s: Shell, e: Event, r: Shell)
    requires Booked(s) && Accounts(s, e, r)
    ensures Booked(r)
  {
    hide Held, FindTab, Birth;
    if MakesTab(s, e) {
      UniqueGrows(Held(s.windows), s.nextTabId, Birth(s, e));
      assert Held(r.windows) <= Held(r.windows) + Lost(s, e);
      UniqueShrinks(Held(s.windows) + Gained(s, e), Held(r.windows), r.nextTabId);
    } else {
      assert Held(s.windows) + Gained(s, e) == Held(s.windows);
      assert Held(r.windows) <= Held(r.windows) + Lost(s, e);
      UniqueShrinks(Held(s.windows), Held(r.windows), r.nextTabId);
    }
  }

  lemma SameBooks(s: Shell, e: Event, r: Shell)
    requires !e.Open? && !e.New? && !e.Close? && r.nextTabId == s.nextTabId && Held(r.windows) == Held(s.windows)
    ensures Accounts(s, e, r)
  {
  }

  lemma CloseAccounts(s: Shell, id: TabId)
    requires Shape(s) && NoEmptyWindow(s)
    ensures Accounts(s, Close(id), CloseOf(s, id))
  {
    hide Held, CloseOf, FindTab;
    CloseStep(s, id);
  }

  lemma OpenAccounts(s: Shell, privateMode: bool)
    requires Shape(s) && NoEmptyWindow(s)
    ensures Accounts(s, Open(privateMode), OpenWindow(s, privateMode))
  {
    hide Held, OpenWindow;
    OpenStep(s, privateMode);
  }

  lemma HandleStep(s: Shell, e: Event)
    requires Inv(s)
    ensures var r := Handle(s, e);
            Shape(r) && NoEmptyWindow(r) && DragOk(r.drag) && Accounts(s, e, r)
  {
    hide Held, OpenWindow, NewTabOf, CloseOf, CloseWindowOf, SelectOf, MoveOf, IdleOf, Movable, FindTab, Accounts;
    hide Shape, NoEmptyWindow;
    match e {
      case Open(privateMode) =>
        OpenStep(s, privateMode);
        OpenAccounts(s, privateMode);
        SameDrag(s, e);
      case New(window) =>
        NewStep(s, window);
        SameDrag(s, e);
      case Close(tab) =>
        CloseStep(s, tab);
        CloseAccounts(s, tab);
        SameDrag(s, e);
      case CloseWindow(window) =>
        CloseWindowStep(s, window);
        SameDrag(s, e);
      case Select(tab) =>
        SelectStep(s, tab);
        SameDrag(s, e);
      case Move(tab, target, destination) =>
        MoveAnyStep(s, tab, target, destination);
        MoveKeepsDrag(s, tab, target, destination);
      case Drop(target, destination) => DropStep(s, target, destination);
      case Idle => IdleStep(s);
      case _ => WindowsSame(s, Handle(s, e));
    }
    if !e.Open? && !e.New? && !e.Close? { SameBooks(s, e, Handle(s, e)); }
  }

  lemma WindowsSame(s: Shell, r: Shell)
    requires Shape(s) && NoEmptyWindow(s) && r == s.(drag := r.drag)
    ensures Shape(r) && NoEmptyWindow(r)
  {
  }

  lemma MoveAnyStep(s: Shell, tab: TabId, target: WindowId, destination: nat)
    requires Shape(s) && NoEmptyWindow(s)
    ensures Keeps(s, MoveOf(s, tab, target, destination)) && NoEmptyWindow(MoveOf(s, tab, target, destination))
  {
    hide Movable, MoveOf, Held;
    MoveStep(s, tab, target, destination);
  }

  lemma DropStep(s: Shell, target: WindowId, destination: nat)
    requires Shape(s) && NoEmptyWindow(s) && DragOk(s.drag)
    ensures var r := DropOf(s, target, destination);
            Keeps(s, r) && NoEmptyWindow(r) && DragOk(r.drag)
  {
    hide Movable, MoveOf, Held;
    KeepsItself(s);
    if s.drag.dragging.Some? {
      var moved := MoveOf(s, s.drag.dragging.value, target, destination);
      MoveAnyStep(s, s.drag.dragging.value, target, destination);
      WindowsSame(moved, moved.(drag := s.drag.(completed := true)));
    }
  }

  lemma SameDrag(s: Shell, e: Event)
    requires e.Open? || e.New? || e.Close? || e.CloseWindow? || e.Select?
    ensures Handle(s, e).drag == s.drag
  {
  }

  // ----- Whole runs -----

  /**
   * Over every run: each tab is in the list of the window it points back to, at its own
   * privacy, and in no other; every open window shows one of its own tabs; an application
   * window has at most one; and at most one detach is pending.
   */
  lemma {:induction false} RunKeepsInv(s: Shell, events: seq<Event>)
    requires Inv(s)
    ensures Inv(Run(s, events)) && s.nextTabId <= Run(s, events).nextTabId
    decreases |events|
  {
    hide Inv, Handle;
    if events == [] {
    } else {
      HandleKeepsInv(s, events[0]);
      RunKeepsInv(Handle(s, events[0]), events[1..]);
    }
  }

  lemma RunFromStart(appMode: bool, events: seq<Event>)
    ensures Inv(Run(Initial(appMode), events))
  {
    RunKeepsInv(Initial(appMode), events);
  }

  /** What the invariant says of one listed tab and the window that lists it. */
  lemma ListedTab(s: Shell, k: nat, i: nat)
    requires Inv(s) && k < |s.windows| && i < |s.windows[k].tabs|
    ensures var w, t := s.windows[k], s.windows[k].tabs[i];
            && t.window == w.id && t.born == w.privateMode
            && (exists j :: 0 <= j < |w.tabs| && w.view == Some(w.tabs[j].id))
            && (s.appMode ==> |w.tabs| == 1)
            && FindTab(s.windows, t.id) == Some(t)
            && forall k', i' ::
                 0 <= k' < |s.windows| && 0 <= i' < |s.windows[k'].tabs| && s.windows[k'].tabs[i'].id == t.id ==>
                 k' == k && i' == i
  {
    var w, t := s.windows[k], s.windows[k].tabs[i];
    assert WindowOk(w, k, s.appMode);
    forall k', i' | 0 <= k' < |s.windows| && 0 <= i' < |s.windows[k'].tabs| && s.windows[k'].tabs[i'].id == t.id
      ensures k' == k && i' == i
    {
      FoundAt(s.windows[k'].tabs, i');
      FoundAt(w.tabs, i);
      OneOwner(s, t.id, k);
      OneOwner(s, t.id, k');
      OnePlace(s, k, i, i');
    }
    FoundAt(w.tabs, i);
    OneOwner(s, t.id, k);
  }

  lemma OnePlace(s: Shell, k: nat, i: nat, j: nat)
    requires Shape(s) && Booked(s) && k < |s.windows| && i < |s.windows[k].tabs| && j < |s.windows[k].tabs|
    requires s.windows[k].tabs[i].id == s.windows[k].tabs[j].id
    ensures i == j
  {
    hide Held;
    var e := Entries(s.windows[k].tabs);
    assert WindowOk(s.windows[k], k, s.appMode);
    assert e[i] == e[j] && e[i] in multiset(e);
    HeldHasPart(s.windows, k);
    assert multiset(e)[e[i]] <= 1;
    if i < j {
      TwoPlaces(e, i, j);
    } else if j < i {
      TwoPlaces(e, j, i);
    }
  }

  lemma TwoPlaces(e: seq<Entry>, i: nat, j: nat)
    requires i < j < |e| && e[i] == e[j]
    ensures multiset(e)[e[i]] >= 2
  {
    assert e == e[..j] + [e[j]] + e[j + 1..];
    assert e[i] in e[..j];
  }

  lemma HeldBefore(s: Shell, event: Event, r: Shell, e: Entry)
    requires Accounts(s, event, r) && e in Held(r.windows)
    ensures e in Held(s.windows) || e.0 == s.nextTabId
  {
    hide Held, FindTab, Birth, MakesTab;
    assert (Held(r.windows) + Lost(s, event))[e] > 0;
    assert (Held(s.windows) + Gained(s, event))[e] > 0;
  }

  lemma {:induction false} RunAccounts(s: Shell, events: seq<Event>, e: Entry)
    requires Inv(s) && e in Held(Run(s, events).windows)
    ensures e in Held(s.windows) || e.0 >= s.nextTabId
    decreases |events|
  {
    hide Held, Inv, Handle, Birth;
    if events == [] {
    } else {
      HandleKeepsInv(s, events[0]);
      RunAccounts(Handle(s, events[0]), events[1..], e);
      if e in Held(Handle(s, events[0]).windows) { HeldBefore(s, events[0], Handle(s, events[0]), e); }
    }
  }

  /** The id of a tab that has been closed never leads to a tab again. */
  lemma ClosedIdsStayGone(s: Shell, events: seq<Event>, id: TabId)
    requires Inv(s) && id < s.nextTabId && FindTab(s.windows, id).None?
    ensures FindTab(Run(s, events).windows, id).None?
  {
    hide FindTab, Inv;
    var r := Run(s, events);
    FoundIsHeld(r, id);
    if FindTab(r.windows, id).Some? {
      var e := (id, FindTab(r.windows, id).value.born);
      RunAccounts(s, events, e);
      HeldIsFound(s, e);
      assert false;
    }
  }

  lemma CloseRemoves(s: Shell, id: TabId)
    requires Inv(s)
    ensures FindTab(CloseOf(s, id).windows, id).None?
  {
    hide FindTab, CloseOf, Held;
    CloseStep(s, id);
    FoundIsHeld(s, id);
    var r := CloseOf(s, id);
    FoundIsHeld(r, id);
    if FindTab(s.windows, id).Some? {
      var tab := FindTab(s.windows, id).value;
      assert Held(s.windows)[(id, tab.born)] == 1;
      assert (id, tab.born) !in Held(r.windows);
    }
  }

  ghost predicate NeverCloses(events: seq<Event>, id: TabId) {
    forall i :: 0 <= i < |events| ==> events[i] != Close(id)
  }

  lemma NeverClosesFirst(events: seq<Event>, id: TabId)
    requires events != []
    ensures NeverCloses(events, id) <==> events[0] != Close(id) && NeverCloses(events[1..], id)
  {
    var rest := events[1..];
    assert forall i :: 0 < i < |events| ==> events[i] == rest[i - 1];
  }

  lemma FoundIsIssued(s: Shell, id: TabId)
    requires Booked(s) && FindTab(s.windows, id).Some?
    ensures id < s.nextTabId
  {
    hide FindTab, Held;
    FoundIsHeld(s, id);
  }

  /** An event other than its close keeps a tab. */
  lemma TabSurvives(s: Shell, e: Event, id: TabId)
    requires Inv(s) && FindTab(s.windows, id).Some? && e != Close(id)
    ensures FindTab(Handle(s, e).windows, id).Some?
  {
    hide FindTab, Held, Inv, Handle, Birth, MakesTab;
    var entry := (id, FindTab(s.windows, id).value.born);
    FoundIsHeld(s, id);
    HandleKeepsInv(s, e);
    var r := Handle(s, e);
    assert entry !in Lost(s, e);
    assert (Held(r.windows) + Lost(s, e))[entry] > 0;
    HeldIsFound(r, entry);
  }

  /** Over every run a tab is there exactly until it is closed: no move, drop or detach loses it. */
  lemma {:induction false} LivesUntilClosed(s: Shell, events: seq<Event>, id: TabId)
    requires Inv(s) && FindTab(s.windows, id).Some?
    ensures FindTab(Run(s, events).windows, id).Some? <==> NeverCloses(events, id)
    decreases |events|
  {
    hide FindTab, Inv, Handle, NeverCloses;
    if events == [] {
      assert NeverCloses([], id) by { NothingCloses(id); }
    } else {
      var next, rest := Handle(s, events[0]), events[1..];
      NeverClosesFirst(events, id);
      HandleKeepsInv(s, events[0]);
      if events[0] == Close(id) {
        InvIsBooked(s);
        FoundIsIssued(s, id);
        CloseRemoves(s, id);
        HandleClose(s, id);
        ClosedIdsStayGone(next, rest, id);
      } else {
        TabSurvives(s, events[0], id);
        LivesUntilClosed(next, rest, id);
      }
    }
  }

  lemma HandleClose(s: Shell, id: TabId)
    ensures Handle(s, Close(id)) == CloseOf(s, id)
  {
  }

  lemma NothingCloses(id: TabId)
    ensures NeverCloses([], id)
  {
  }

  lemma InvIsBooked(s: Shell)
    requires Inv(s)
    ensures Booked(s)
  {
  }

  /** A tab that is not closed is after any run in one window, and as private as it was made. */
  lemma PrivacyIsForLife(s: Shell, events: seq<Event>, id: TabId)
    requires Inv(s) && FindTab(s.windows, id).Some? && NeverCloses(events, id)
    ensures var r := Run(s, events);
            var k := OwnerIndex(r.windows, id);
            && FindTab(r.windows, id).Some?
            && FindTab(r.windows, id).value.born == FindTab(s.windows, id).value.born
            && k < |r.windows| && r.windows[k].privateMode == FindTab(s.windows, id).value.born
            && forall j :: 0 <= j < |r.windows| && TabIndex(r.windows[j].tabs, id) < |r.windows[j].tabs| ==> j == k
  {
    hide Held;
    var r := Run(s, events);
    LivesUntilClosed(s, events, id);
    RunKeepsInv(s, events);
    FoundIsHeld(s, id);
    FoundIsHeld(r, id);
    BackPointer(r, id);
    RunAccounts(s, events, (id, FindTab(r.windows, id).value.born));
    forall j | 0 <= j < |r.windows| && TabIndex(r.windows[j].tabs, id) < |r.windows[j].tabs|
      ensures j == OwnerIndex(r.windows, id)
    {
      OneOwner(r, id, j);
    }
  }

  // ----- What one operation changes -----

  /** Without an id the agent gets the tab that the first open window shows, whenever a window is open. */
  lemma {:induction false} CurrentTabIsShown(s: Shell, k: nat)
    requires Inv(s) && k < |s.windows| && !s.windows[k].closed && forall j :: 0 <= j < k ==> s.windows[j].closed
    ensures var w := s.windows[k];
            w.view.Some? && TabIndex(w.tabs, w.view.value) < |w.tabs|
            && CurrentTab(s.windows) == Some(w.tabs[TabIndex(w.tabs, w.view.value)])
  {
    assert WindowOk(s.windows[k], k, s.appMode);
    FirstOpen(s.windows, k);
  }

  lemma {:induction false} FirstOpen(windows: seq<Window>, k: nat)
    requires k < |windows| && !windows[k].closed && windows[k].view.Some?
    requires forall j :: 0 <= j < k ==> windows[j].closed
    ensures CurrentTab(windows) == CurrentTab(windows[k..])
  {
    if k > 0 {
      FirstOpen(windows[1..], k - 1);
      assert windows[1..][k - 1..] == windows[k..];
    } else {
      assert windows[0..] == windows;
    }
  }

  /** What is left of a window when the tab at `i` leaves it: the others in order, and a neighbour in front. */
  ghost predicate LostTab(before: Window, after: Window, i: nat)
    requires i < |before.tabs|
  {
    var n := |before.tabs|;
    && after.id == before.id && after.privateMode == before.privateMode
    && |after.tabs| == n - 1
    && (forall j :: 0 <= j < n - 1 ==> after.tabs[j] == before.tabs[if j < i then j else j + 1])
    && (after.closed <==> before.closed || n == 1)
    && (n > 1 ==> after.view == if before.view != Some(before.tabs[i].id) then before.view
                                else if i + 1 < n then Some(before.tabs[i + 1].id)
                                else Some(before.tabs[i - 1].id))
  }

  lemma LeftLostTab(w: Window, i: nat, dangling: Option<TabId>)
    requires i < |w.tabs|
    ensures LostTab(w, Left(w, i, dangling), i)
    ensures |w.tabs| == 1 ==> Left(w, i, dangling).view == dangling
  {
  }

  /** What a window looks like when a tab has come in at `d`: it is in front, the others are in order. */
  ghost predicate GainedTab(before: Window, after: Window, tab: Tab, d: nat) {
    && d <= |before.tabs| && |after.tabs| == |before.tabs| + 1
    && after.tabs[d] == tab && after.view == Some(tab.id)
    && (forall j :: 0 <= j < |before.tabs| ==> after.tabs[if j < d then j else j + 1] == before.tabs[j])
    && after.id == before.id && after.privateMode == before.privateMode && after.closed == before.closed
  }

  /** Selecting a tab brings it to the front of the window that lists it, and changes nothing else. */
  lemma SelectEffect(s: Shell, id: TabId)
    requires Inv(s) && FindTab(s.windows, id).Some?
    ensures var k, r := OwnerIndex(s.windows, id), SelectOf(s, id);
            k < |s.windows| && r == s.(windows := s.windows[k := s.windows[k].(view := Some(id))])
  {
    hide FindTab;
    BackPointer(s, id);
  }

  /** Closing a tab changes its own window only; the last tab takes the window with it. */
  lemma CloseEffect(s: Shell, id: TabId)
    requires Inv(s) && FindTab(s.windows, id).Some?
    ensures var k, r := OwnerIndex(s.windows, id), CloseOf(s, id);
            && k < |s.windows| && r == s.(windows := r.windows) && |r.windows| == |s.windows|
            && (forall j :: 0 <= j < |s.windows| && j != k ==> r.windows[j] == s.windows[j])
            && LostTab(s.windows[k], r.windows[k], TabIndex(s.windows[k].tabs, id))
            && (|s.windows[k].tabs| == 1 ==> r.windows[k].view == s.windows[k].view)
  {
    hide Left, LostTab, FindTab;
    BackPointer(s, id);
    FoundTab(s.windows, id);
    var k := OwnerIndex(s.windows, id);
    var w := s.windows[k];
    LeftLostTab(w, TabIndex(w.tabs, id), w.view);
  }

  /**
   * Moving a tab to another window: it leaves the one as by a close, lands in the other at
   * the wanted place or last, points back to it and is in front; all else is as it was.
   */
  lemma MoveAcrossEffect(s: Shell, id: TabId, target: WindowId, destination: nat)
    requires Inv(s) && Movable(s, id, target) && OwnerIndex(s.windows, id) != WindowIndex(s.windows, target)
    ensures var k, t := OwnerIndex(s.windows, id), WindowIndex(s.windows, target);
            var r := MoveOf(s, id, target, destination);
            && k < |s.windows| && t < |s.windows| && r == s.(windows := r.windows) && |r.windows| == |s.windows|
            && (forall j :: 0 <= j < |s.windows| && j != k && j != t ==> r.windows[j] == s.windows[j])
            && LostTab(s.windows[k], r.windows[k], TabIndex(s.windows[k].tabs, id))
            && (|s.windows[k].tabs| == 1 ==> r.windows[k].view == None)
            && var tab := s.windows[k].tabs[TabIndex(s.windows[k].tabs, id)];
               GainedTab(s.windows[t], r.windows[t], tab.(window := target), Min(destination, |s.windows[t].tabs|))
  {
    hide Left, LostTab, FindTab, Joined, GainedTab, Inv;
    assert Shape(s) by { InvHasShape(s); }
    BackPointer(s, id);
    FoundTab(s.windows, id);
    IdOfIndex(s, target);
    var k, t := OwnerIndex(s.windows, id), WindowIndex(s.windows, target);
    var w := s.windows[k];
    var i := TabIndex(w.tabs, id);
    LeftLostTab(w, i, None);
    JoinedGainedTab(s.windows[t], w.tabs[i], destination);
  }

  lemma InvHasShape(s: Shell)
    requires Inv(s)
    ensures Shape(s)
  {
  }

  lemma JoinedGainedTab(w: Window, tab: Tab, destination: nat)
    ensures GainedTab(w, Joined(w, tab, destination), tab.(window := w.id), Min(destination, |w.tabs|))
  {
  }

  /** Moving a tab within its window changes only the order of its tabs, and theirs not among each other. */
  lemma MoveWithinEffect(s: Shell, id: TabId, target: WindowId, destination: nat)
    requires Inv(s) && Movable(s, id, target) && OwnerIndex(s.windows, id) == WindowIndex(s.windows, target)
    ensures var k, r := OwnerIndex(s.windows, id), MoveOf(s, id, target, destination);
            && k < |s.windows| && r == s.(windows := s.windows[k := s.windows[k].(tabs := r.windows[k].tabs)])
            && var before, after, i := s.windows[k].tabs, r.windows[k].tabs, TabIndex(s.windows[k].tabs, id);
               var gap := Min(destination, |before|);
               var d := if gap > i then gap - 1 else gap;
               && d < |after| == |before| && after[d] == before[i]
               && Without(after, d) == Without(before, i)
  {
    hide FindTab, Inv, TabIndex, WindowIndex, OwnerIndex;
    assert Shape(s) by { InvHasShape(s); }
    BackPointer(s, id);
    FoundTab(s.windows, id);
    var before, i := s.windows[OwnerIndex(s.windows, id)].tabs, TabIndex(s.windows[OwnerIndex(s.windows, id)].tabs, id);
    TakeOut(Without(before, i), Landing(i, Min(destination, |before|)), before[i]);
  }

  /**
   * A new tab comes in directly behind the tab in front, under the next id, at the privacy of
   * its window, and takes the front. In application mode it gets a window of its own instead.
   */
  lemma NewTabEffect(s: Shell, window: WindowId)
    requires Inv(s) && WindowIndex(s.windows, window) < |s.windows|
    ensures var k, r := WindowIndex(s.windows, window), NewTabOf(s, window);
            var w := s.windows[k];
            && r.nextTabId == s.nextTabId + 1
            && if s.appMode && w.tabs != [] then
                 r.windows == s.windows
                   + [Window(s.nextWindowId, w.privateMode, [Tab(s.nextTabId, s.nextWindowId, w.privateMode)],
                             Some(s.nextTabId), false)]
               else
                 && |r.windows| == |s.windows|
                 && (forall j :: 0 <= j < |s.windows| && j != k ==> r.windows[j] == s.windows[j])
                 && GainedTab(w, r.windows[k], Tab(s.nextTabId, window, w.privateMode),
                              if w.tabs == [] then 0 else TabIndex(w.tabs, w.view.value) + 1)
  {
    hide GainedTab, Inv, TabIndex;
    assert Shape(s) by { InvHasShape(s); }
    var k := WindowIndex(s.windows, window);
    IdOfIndex(s, window);
    assert WindowOk(s.windows[k], k, s.appMode);
    if s.appMode && s.windows[k].tabs != [] {
      OpenedWindow(s, s.windows[k].privateMode);
    } else {
      InsertedGainedTab(s.windows[k], Tab(s.nextTabId, window, s.windows[k].privateMode));
    }
  }

  lemma OpenedWindow(s: Shell, privateMode: bool)
    ensures OpenWindow(s, privateMode).windows
            == s.windows + [Window(s.nextWindowId, privateMode, [Tab(s.nextTabId, s.nextWindowId, privateMode)],
                                   Some(s.nextTabId), false)]
  {
    var tab := Tab(s.nextTabId, s.nextWindowId, privateMode);
    assert WithAt([], 0, tab) == [tab];
  }

  lemma InsertedGainedTab(w: Window, tab: Tab)
    ensures var i := InsertionIndex(w);
            GainedTab(w, w.(tabs := WithAt(w.tabs, i, tab), view := Some(tab.id)), tab, i)
  {
  }

  /** Closing a whole window retires none of its tabs: their ids still lead to them. */
  lemma {:induction false} ClosedWindowStillResolves(windows: seq<Window>, k: nat, id: TabId)
    requires k < |windows|
    ensures FindTab(windows[k := windows[k].(closed := true)], id) == FindTab(windows, id)
  {
    var all := windows[k := windows[k].(closed := true)];
    assert all[0].tabs == windows[0].tabs;
    if TabIndex(windows[0].tabs, id) == |windows[0].tabs| {
      if k == 0 {
        assert all[1..] == windows[1..];
      } else {
        assert all[1..] == windows[1..][k - 1 := windows[k].(closed := true)];
        ClosedWindowStillResolves(windows[1..], k - 1, id);
        FindTabLater(all, id);
        FindTabLater(windows, id);
      }
    }
  }

  lemma FindTabLater(windows: seq<Window>, id: TabId)
    requires windows != [] && TabIndex(windows[0].tabs, id) == |windows[0].tabs|
    ensures FindTab(windows, id) == FindTab(windows[1..], id)
  {
  }

  /** The user closes a window: it is closed and keeps its tabs and its view; nothing else changes. */
  lemma CloseWindowEffect(s: Shell, window: WindowId)
    requires WindowIndex(s.windows, window) < |s.windows|
    ensures var k, r := WindowIndex(s.windows, window), CloseWindowOf(s, window);
            var before := s.windows[k];
            && |r.windows| == |s.windows|
            && r.windows[k] == Window(window, before.privateMode, before.tabs, before.view, true)
            && (forall j :: 0 <= j < |s.windows| && j != k ==> r.windows[j] == s.windows[j])
            && r == s.(windows := r.windows)
  {
    hide WindowIndex;
  }

  /** An id that no window lists, and an unknown window, change nothing. */
  lemma AbsentChangesNothing(s: Shell, id: TabId, window: WindowId, destination: nat)
    ensures FindTab(s.windows, id).None? ==>
              SelectOf(s, id) == s && CloseOf(s, id) == s && MoveOf(s, id, window, destination) == s
    ensures WindowIndex(s.windows, window) == |s.windows| ==>
              NewTabOf(s, window) == s && CloseWindowOf(s, window) == s && MoveOf(s, id, window, destination) == s
  {
    hide FindTab, WindowIndex;
  }

  /**
   * A listed tab can be moved exactly when both windows are open and equally private and the
   * application is not in application mode.
   */
  lemma MovableIff(s: Shell, id: TabId, target: WindowId)
    requires Inv(s) && FindTab(s.windows, id).Some?
    ensures var k, t := OwnerIndex(s.windows, id), WindowIndex(s.windows, target);
            && k < |s.windows|
            && (Movable(s, id, target) <==>
                && t < |s.windows| && !s.windows[t].closed && !s.windows[k].closed
                && s.windows[k].privateMode == s.windows[t].privateMode && !s.appMode)
  {
    hide FindTab, Inv, TabIndex, WindowIndex, OwnerIndex;
    assert Shape(s) by { InvHasShape(s); }
    BackPointer(s, id);
    FoundTab(s.windows, id);
  }

  /** A drop moves the dragged tab as a move does, and is refused without one or when that cannot be moved. */
  lemma DropEffect(s: Shell, target: WindowId, destination: nat)
    ensures var r, dragged := DropOf(s, target, destination), s.drag.dragging;
            if dragged.Some? && Movable(s, dragged.value, target) then
              && r.windows == MoveOf(s, dragged.value, target, destination).windows
              && r == s.(windows := r.windows, drag := s.drag.(completed := true))
            else r == s
  {
    if s.drag.dragging.Some? { MoveKeepsDrag(s, s.drag.dragging.value, target, destination); }
    hide Movable, MoveOf;
  }

  // ----- Drags -----

  lemma {:induction false} RunMore(s: Shell, events: seq<Event>, i: nat)
    requires i < |events|
    ensures Run(s, events[..i + 1]) == Run(Handle(s, events[0]), events[1..][..i])
  {
    hide Handle;
    assert events[..i + 1][1..] == events[1..][..i];
  }

  /** What the callbacks may be called with while `id` is dragged: everything but another begin or end. */
  ghost predicate WhileDragged(events: seq<Event>) {
    forall i :: 0 <= i < |events| ==> !events[i].Begin? && !events[i].End?
  }

  ghost predicate CancelledIn(events: seq<Event>) {
    exists i :: 0 <= i < |events| && events[i].Cancel?
  }

  /** Some drop of `id` could be carried out at the time it came. */
  ghost predicate DropsAt(s: Shell, events: seq<Event>, id: TabId, i: nat)
    requires i < |events|
  {
    events[i].Drop? && Movable(Run(s, events[..i]), id, events[i].target)
  }

  ghost predicate DroppedIn(s: Shell, events: seq<Event>, id: TabId) {
    exists i :: 0 <= i < |events| && DropsAt(s, events, id, i)
  }

  lemma CancelledFirst(events: seq<Event>)
    requires events != []
    ensures CancelledIn(events) <==> events[0].Cancel? || CancelledIn(events[1..])
  {
    var rest := events[1..];
    if CancelledIn(events) {
      var i :| 0 <= i < |events| && events[i].Cancel?;
      assert i > 0 ==> rest[i - 1].Cancel?;
    }
    if CancelledIn(rest) {
      var i :| 0 <= i < |rest| && rest[i].Cancel?;
      assert events[i + 1].Cancel?;
    }
  }

  lemma DropsLater(s: Shell, events: seq<Event>, id: TabId, i: nat)
    requires i + 1 < |events|
    ensures DropsAt(s, events, id, i + 1) == DropsAt(Handle(s, events[0]), events[1..], id, i)
  {
    hide Movable, Handle;
    RunMore(s, events, i);
  }

  lemma DropsFirst(s: Shell, events: seq<Event>, id: TabId)
    requires events != []
    ensures DropsAt(s, events, id, 0) <==> events[0].Drop? && Movable(s, id, events[0].target)
  {
    hide Movable, Handle;
    assert events[..0] == [];
  }

  lemma DroppedFirst(s: Shell, events: seq<Event>, id: TabId)
    requires events != []
    ensures DroppedIn(s, events, id) <==>
            (events[0].Drop? && Movable(s, id, events[0].target)) || DroppedIn(Handle(s, events[0]), events[1..], id)
  {
    DropsFirst(s, events, id);
    hide Movable, Handle, DropsAt;
    var next, rest := Handle(s, events[0]), events[1..];
    if DroppedIn(s, events, id) {
      var i :| 0 <= i < |events| && DropsAt(s, events, id, i);
      if i > 0 { DropsLater(s, events, id, i - 1); }
    }
    if DroppedIn(next, rest, id) {
      var i :| 0 <= i < |rest| && DropsAt(next, rest, id, i);
      DropsLater(s, events, id, i);
    }
  }

  lemma IdleKeepsFlags(s: Shell)
    ensures var d := IdleOf(s).drag;
            (d.dragging, d.completed, d.cancelled) == (s.drag.dragging, s.drag.completed, s.drag.cancelled)
  {
    hide MoveOf, OpenOwnerIndex;
    if s.drag.queue != [] && !Superseded(s.drag) {
      var request := s.drag.queue[0];
      var s2 := s.(drag := s.drag.(queue := s.drag.queue[1..], pending := None));
      var k := OpenOwnerIndex(s.windows, request);
      if !s.appMode && k < |s.windows| {
        MoveKeepsDrag(OpenEmpty(s2, s.windows[k].privateMode), request, s.nextWindowId, 0);
      }
    }
  }

  /** One event of a drag. */
  lemma DragStep(s: Shell, e: Event, id: TabId)
    requires s.drag.dragging == Some(id) && !e.Begin? && !e.End?
    ensures var d := Handle(s, e).drag;
            && d.dragging == Some(id)
            && d.cancelled == (s.drag.cancelled || e.Cancel?)
            && d.completed == (s.drag.completed || (e.Drop? && Movable(s, id, e.target)))
  {
    hide Movable, MoveOf, IdleOf;
    match e
    case Move(tab, target, destination) => MoveKeepsDrag(s, tab, target, destination);
    case Idle => IdleKeepsFlags(s);
    case Drop(target, destination) =>
    case Cancel(tab, byUser) =>
    case _ => SameDrag(s, e);
  }

  lemma {:induction false} DragRun(s: Shell, events: seq<Event>, id: TabId)
    requires s.drag.dragging == Some(id) && WhileDragged(events)
    ensures var d := Run(s, events).drag;
            && d.dragging == Some(id)
            && (d.cancelled <==> s.drag.cancelled || CancelledIn(events))
            && (d.completed <==> s.drag.completed || DroppedIn(s, events, id))
    decreases |events|
  {
    hide Handle, Movable, CancelledIn, DroppedIn;
    if events == [] {
      NothingHappened(s, id);
    } else {
      DragStep(s, events[0], id);
      CancelledFirst(events);
      DroppedFirst(s, events, id);
      DragRun(Handle(s, events[0]), events[1..], id);
    }
  }

  lemma NothingHappened(s: Shell, id: TabId)
    ensures !CancelledIn([]) && !DroppedIn(s, [], id)
  {
  }

  /**
   * A whole drag, from its begin to its end, with any events in between: tabs and windows
   * opened, closed and moved, drops accepted or refused, cancels, other tabs' requests and
   * the idle callback. The tab stays the dragged one. At the end it is queued for detach
   * exactly when no drop of it succeeded, no cancel came and nothing is pending; the windows
   * stay as they are, and no flag of the drag outlives it.
   */
  lemma DragOutcome(s: Shell, id: TabId, events: seq<Event>)
    requires WhileDragged(events)
    ensures var begun := BeginOf(s, id);
            var before := Run(begun, events);
            var r := EndOf(before, id);
            var queued := !DroppedIn(begun, events, id) && !CancelledIn(events) && before.drag.pending.None?;
            && before.drag.dragging == Some(id)
            && r == before.(drag := r.drag)
            && r.drag == Drag(None, false, false, if queued then Some(id) else before.drag.pending,
                              if queued then before.drag.queue + [id] else before.drag.queue)
  {
    hide Run, CancelledIn, DroppedIn, WhileDragged;
    DragRun(BeginOf(s, id), events, id);
  }

  // ----- Dropped, queued or left -----

  /** A cancel that the user did not ask for: the tab was released outside every window. */
  ghost predicate OutsideCancelIn(events: seq<Event>) {
    exists i :: 0 <= i < |events| && events[i].Cancel? && !events[i].byUser
  }

  lemma OutsideCancelFirst(events: seq<Event>)
    requires events != []
    ensures OutsideCancelIn(events) <==> (events[0].Cancel? && !events[0].byUser) || OutsideCancelIn(events[1..])
  {
    var rest := events[1..];
    if OutsideCancelIn(events) {
      var i :| 0 <= i < |events| && events[i].Cancel? && !events[i].byUser;
      assert i > 0 ==> rest[i - 1].Cancel? && !rest[i - 1].byUser;
    }
    if OutsideCancelIn(rest) {
      var i :| 0 <= i < |rest| && rest[i].Cancel? && !rest[i].byUser;
      assert events[i + 1].Cancel? && !events[i + 1].byUser;
    }
  }

  /** The drag's own events: cancels are of the dragged tab, and the idle callback comes later. */
  ghost predicate OwnEvents(events: seq<Event>, id: TabId) {
    forall i :: 0 <= i < |events| ==>
      !events[i].Begin? && !events[i].End? && !events[i].Idle? && (events[i].Cancel? ==> events[i].tab == id)
  }

  predicate Requested(d: Drag, id: TabId) { d.pending == Some(id) && d.queue == [id] }

  predicate Unrequested(d: Drag) { d.pending.None? && d.queue == [] }

  lemma RequestStep(s: Shell, e: Event, id: TabId)
    requires !e.Begin? && !e.End? && !e.Idle? && (e.Cancel? ==> e.tab == id)
    ensures Requested(s.drag, id) ==> Requested(Handle(s, e).drag, id)
    ensures Unrequested(s.drag) ==>
              if e.Cancel? && !e.byUser then Requested(Handle(s, e).drag, id) else Unrequested(Handle(s, e).drag)
  {
    hide Movable, MoveOf;
    match e
    case Move(tab, target, destination) => MoveKeepsDrag(s, tab, target, destination);
    case Drop(target, destination) =>
    case Cancel(tab, byUser) =>
    case _ => SameDrag(s, e);
  }

  lemma {:induction false} RequestRun(s: Shell, events: seq<Event>, id: TabId)
    requires OwnEvents(events, id) && (Requested(s.drag, id) || Unrequested(s.drag))
    ensures var d := Run(s, events).drag;
            if Requested(s.drag, id) || OutsideCancelIn(events) then Requested(d, id) else Unrequested(d)
    decreases |events|
  {
    hide Handle, OutsideCancelIn;
    if events == [] {
      assert !OutsideCancelIn([]) by { NoOutsideCancel(); }
    } else {
      RequestStep(s, events[0], id);
      OutsideCancelFirst(events);
      RequestRun(Handle(s, events[0]), events[1..], id);
    }
  }

  lemma NoOutsideCancel()
    ensures !OutsideCancelIn([])
  {
  }

  /**
   * A drag that begins with nothing pending. It ends dropped when some drop of it succeeded,
   * queued for detach once when it was cancelled outside or neither dropped nor cancelled,
   * and left in place when only the user cancelled it. One of the three holds, and no two do
   * but the first two: a drop that succeeded does not keep a later outside cancel from
   * queueing the tab, nor the other way round.
   */
  lemma DragResult(s: Shell, id: TabId, events: seq<Event>)
    requires Unrequested(s.drag) && OwnEvents(events, id)
    ensures var begun := BeginOf(s, id);
            var r := EndOf(Run(begun, events), id);
            var dropped, outside := DroppedIn(begun, events, id), OutsideCancelIn(events);
            var queued := outside || (!dropped && !CancelledIn(events));
            && (if queued then Requested(r.drag, id) else Unrequested(r.drag))
            && (dropped && queued <==> dropped && outside)
            && (!dropped && !queued <==> !dropped && CancelledIn(events) && !outside)
            && r.windows == Run(begun, events).windows
  {
    hide Run, CancelledIn, DroppedIn, OutsideCancelIn;
    var begun := BeginOf(s, id);
    assert WhileDragged(events);
    RequestRun(begun, events, id);
    DragOutcome(s, id, events);
    OutsideIsCancel(events);
  }

  lemma OutsideIsCancel(events: seq<Event>)
    ensures OutsideCancelIn(events) ==> CancelledIn(events)
  {
  }

  /** The two outcomes together: the tab is dropped into a window and then queued to be torn off it. */
  lemma DroppedAndQueued(s: Shell, id: TabId, target: WindowId, destination: nat)
    requires Unrequested(s.drag) && Movable(s, id, target)
    ensures var r := EndOf(Run(BeginOf(s, id), [Drop(target, destination), Cancel(id, false)]), id);
            && r.windows == MoveOf(s, id, target, destination).windows
            && Requested(r.drag, id)
  {
    hide FindTab, WindowIndex, TabIndex;
    var begun, drop, cancel := BeginOf(s, id), Drop(target, destination), Cancel(id, false);
    assert Movable(begun, id, target);
    assert MoveOf(begun, id, target, destination).windows == MoveOf(s, id, target, destination).windows;
    MoveKeepsDrag(begun, id, target, destination);
    hide Movable, MoveOf;
    RunTwo(begun, drop, cancel);
  }

  lemma RunTwo(s: Shell, first: Event, second: Event)
    ensures Run(s, [first, second]) == Handle(Handle(s, first), second)
  {
    hide Handle;
    assert [first, second][1..] == [second] && [second][1..] == [];
    assert Run(Handle(s, first), [second]) == Run(Handle(Handle(s, first), second), []);
  }

  // ----- Drags the user called off -----

  ghost predicate OnlyUserCancels(events: seq<Event>) {
    forall i :: 0 <= i < |events| && events[i].Cancel? ==> events[i].byUser
  }

  /** An event of a drag queues nothing unless it is a cancel that the user did not ask for. */
  lemma QueueStep(s: Shell, e: Event)
    requires Inv(s) && !e.Begin? && !e.End? && (e.Cancel? ==> e.byUser)
    ensures Handle(s, e).drag.queue == if e.Idle? then [] else s.drag.queue
  {
    hide Held, Movable, MoveOf, IdleOf, Shape, NoEmptyWindow, Booked;
    match e
    case Move(tab, target, destination) => MoveKeepsDrag(s, tab, target, destination);
    case Idle => IdleEmpties(s);
    case Drop(target, destination) =>
    case Cancel(tab, byUser) =>
    case _ => SameDrag(s, e);
  }

  lemma IdleEmpties(s: Shell)
    requires DragOk(s.drag)
    ensures !Superseded(s.drag)
    ensures IdleOf(s).drag == s.drag.(queue := [], pending := None)
  {
    hide MoveOf, OpenOwnerIndex;
    if s.drag.queue != [] {
      var request := s.drag.queue[0];
      var s2 := s.(drag := s.drag.(queue := s.drag.queue[1..], pending := None));
      assert s.drag.queue[1..] == [];
      var k := OpenOwnerIndex(s.windows, request);
      if !s.appMode && k < |s.windows| {
        MoveKeepsDrag(OpenEmpty(s2, s.windows[k].privateMode), request, s.nextWindowId, 0);
      }
    }
  }

  lemma {:induction false} QueueRun(s: Shell, events: seq<Event>)
    requires Inv(s) && WhileDragged(events) && OnlyUserCancels(events)
    ensures Run(s, events).drag.queue == [] || Run(s, events).drag.queue == s.drag.queue
    decreases |events|
  {
    hide Handle, Inv;
    if events == [] {
    } else {
      QueueStep(s, events[0]);
      HandleKeepsInv(s, events[0]);
      QueueRun(Handle(s, events[0]), events[1..]);
    }
  }

  lemma BeginKeepsInv(s: Shell, id: TabId)
    requires Inv(s)
    ensures Inv(BeginOf(s, id))
  {
    hide Held;
  }

  /**
   * A drag that the user called off detaches nothing: whatever else happens during it, no
   * request is queued that was not queued before it began.
   */
  lemma UserCancelDetachesNothing(s: Shell, id: TabId, events: seq<Event>)
    requires Inv(s) && WhileDragged(events) && OnlyUserCancels(events) && CancelledIn(events)
    ensures var r := EndOf(Run(BeginOf(s, id), events), id);
            r.drag.queue == [] || r.drag.queue == s.drag.queue
  {
    hide Run, CancelledIn, DroppedIn, WhileDragged, OnlyUserCancels, Inv;
    BeginKeepsInv(s, id);
    QueueRun(BeginOf(s, id), events);
    DragOutcome(s, id, events);
  }

  /**
   * Over every run from the start: at most one detach is queued, it is the pending one, the
   * idle callback's test for a superseded request never fires, and the callback uses the
   * request up.
   */
  lemma QueuedIsPending(appMode: bool, events: seq<Event>)
    ensures var s := Run(Initial(appMode), events);
            && (s.drag.queue != [] ==> s.drag.pending.Some? && s.drag.queue == [s.drag.pending.value])
            && (s.drag.queue == [] ==> s.drag.pending.None?)
            && !Superseded(s.drag)
            && IdleOf(s).drag == s.drag.(queue := [], pending := None)
  {
    hide Run, IdleOf, Shape, Booked, NoEmptyWindow;
    RunFromStart(appMode, events);
    IdleEmpties(Run(Initial(appMode), events));
  }

  /**
   * The deferred detach: if an open ordinary window still owns the tab, the tab alone fills
   * one new window of the same privacy, its old window loses just that tab, no other window
   * changes, and no tab is lost or made; otherwise only the request is used up.
   */
  lemma DetachEffect(s: Shell)
    requires Inv(s) && s.drag.queue != []
    ensures var id, r := s.drag.queue[0], IdleOf(s);
            var k := OwnerIndex(s.windows, id);
            && r.drag == s.drag.(queue := [], pending := None)
            && Held(r.windows) == Held(s.windows)
            && if s.appMode || k == |s.windows| || s.windows[k].closed then r.windows == s.windows
               else
                 var i := TabIndex(s.windows[k].tabs, id);
                 var tab := s.windows[k].tabs[i];
                 r.windows == s.windows[k := Left(s.windows[k], i, None)]
                              + [Window(s.nextWindowId, tab.born, [tab.(window := s.nextWindowId)], Some(id), false)]
  {
    hide Held, Left, MoveOf, TabIndex, Unique;
    IdleStep(s);
    assert s.drag.queue[1..] == [];
    var id := s.drag.queue[0];
    OpenOwnerIff(s, id);
    var k := if s.appMode then |s.windows| else OpenOwnerIndex(s.windows, id);
    if k < |s.windows| {
      DetachWindows(s.(drag := s.drag.(queue := [], pending := None)), k, id);
    }
  }

  lemma {:induction false} OpenOwnerNone(windows: seq<Window>, id: TabId, k: nat)
    requires OpenOwnerIndex(windows, id) == |windows| && k < |windows|
    ensures windows[k].closed || TabIndex(windows[k].tabs, id) == |windows[k].tabs|
  {
    if k > 0 { OpenOwnerNone(windows[1..], id, k - 1); }
  }

  /** The window the search finds is the one that owns the tab, if that is open. */
  lemma OpenOwnerIff(s: Shell, id: TabId)
    requires Shape(s) && Booked(s)
    ensures var k := OwnerIndex(s.windows, id);
            OpenOwnerIndex(s.windows, id) == if k < |s.windows| && !s.windows[k].closed then k else |s.windows|
  {
    hide Held, TabIndex, Unique;
    var k, open := OwnerIndex(s.windows, id), OpenOwnerIndex(s.windows, id);
    if open < |s.windows| {
      OneOwner(s, id, open);
    } else if k < |s.windows| {
      OpenOwnerNone(s.windows, id, k);
    }
  }

  lemma DetachWindows(s: Shell, k: nat, id: TabId)
    requires Shape(s) && Booked(s) && !s.appMode && k == OpenOwnerIndex(s.windows, id) < |s.windows|
    ensures var r := MoveOf(OpenEmpty(s, s.windows[k].privateMode), id, s.nextWindowId, 0);
            var i := TabIndex(s.windows[k].tabs, id);
            var tab := s.windows[k].tabs[i];
            && r.drag == s.drag
            && r.windows == s.windows[k := Left(s.windows[k], i, None)]
                            + [Window(s.nextWindowId, tab.born, [tab.(window := s.nextWindowId)], Some(id), false)]
  {
    hide Held, Left, Movable, MoveOf;
    var s3 := OpenEmpty(s, s.windows[k].privateMode);
    DetachIsMovable(s, k, id);
    OpenEmptyKeeps(s, s.windows[k].privateMode);
    DetachedMove(s3, k, id, s.nextWindowId);
    MoveKeepsDrag(s3, id, s.nextWindowId, 0);
    assert s3.windows[..|s.windows|] == s.windows;
    assert WindowOk(s.windows[k], k, s.appMode);
  }

  lemma DetachedMove(s: Shell, k: nat, id: TabId, made: WindowId)
    requires Shape(s) && Movable(s, id, made) && OwnerIndex(s.windows, id) == k < |s.windows| - 1
    requires WindowIndex(s.windows, made) == |s.windows| - 1
    requires s.windows[|s.windows| - 1].tabs == []
    ensures var n := |s.windows| - 1;
            var i := TabIndex(s.windows[k].tabs, id);
            var tab := s.windows[k].tabs[i];
            MoveOf(s, id, made, 0).windows
            == s.windows[..n][k := Left(s.windows[k], i, None)]
               + [s.windows[n].(tabs := [tab.(window := made)], view := Some(id))]
  {
    hide Left, Movable, Joined, Shape, MoveOf, TabIndex, OwnerIndex, WindowIndex;
    var n := |s.windows| - 1;
    var source, w := s.windows[k], s.windows[n];
    MadeId(s, made);
    OwnerHasTab(s.windows, id);
    var i := TabIndex(source.tabs, id);
    MoveAcrossText(s, id, made, 0);
    JoinedEmpty(w, source.tabs[i]);
    UpdateTwo(s.windows, k, Left(source, i, None), Joined(w, source.tabs[i], 0));
    OwnTab(source.tabs, id);
  }

  lemma MadeId(s: Shell, made: WindowId)
    requires WindowIndex(s.windows, made) < |s.windows|
    ensures s.windows[WindowIndex(s.windows, made)].id == made
  {
  }

  lemma OwnerHasTab(windows: seq<Window>, id: TabId)
    ensures var k := OwnerIndex(windows, id); k < |windows| ==> TabIndex(windows[k].tabs, id) < |windows[k].tabs|
  {
  }

  lemma OwnTab(tabs: seq<Tab>, id: TabId)
    ensures var i := TabIndex(tabs, id); i < |tabs| ==> tabs[i].id == id
  {
  }

  /** The two windows that a move across them changes. */
  lemma MoveAcrossText(s: Shell, id: TabId, target: WindowId, destination: nat)
    requires Shape(s) && Movable(s, id, target) && OwnerIndex(s.windows, id) != WindowIndex(s.windows, target)
    ensures var k, t := OwnerIndex(s.windows, id), WindowIndex(s.windows, target);
            && k < |s.windows| && t < |s.windows|
            && var i := TabIndex(s.windows[k].tabs, id);
               && i < |s.windows[k].tabs|
               && MoveOf(s, id, target, destination).windows
                  == s.windows[k := Left(s.windows[k], i, None)]
                              [t := Joined(s.windows[t], s.windows[k].tabs[i], destination)]
  {
    BackPointer(s, id);
    FoundTab(s.windows, id);
    hide Left, Joined, FindTab;
  }

  lemma JoinedEmpty(w: Window, tab: Tab)
    requires w.tabs == []
    ensures Joined(w, tab, 0) == w.(tabs := [tab.(window := w.id)], view := Some(tab.id))
  {
    assert WithAt([], 0, tab.(window := w.id)) == [tab.(window := w.id)];
  }

  lemma UpdateTwo<T>(s: seq<T>, k: nat, x: T, y: T)
    requires k < |s| - 1
    ensures s[k := x][|s| - 1 := y] == s[..|s| - 1][k := x] + [y]
  {
  }
}
