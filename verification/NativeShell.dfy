/**
 * Windows, tabs and tab drags of the native shell (src/native_app.cpp:1870-1872, 1989-2017,
 * 2059-2111, 2120-2181, 2225-2245, 2776-2782, 3295-3304, 3404-3447, 3866-3877, 4196-4204,
 * 4230-4237). Each window owns its tabs in a vector, and the application owns the windows;
 * the raw pointers between them (a tab's window, a window's view, the dragged and the pending
 * tab) are modelled by the ids of what they point to. A tab keeps one web view for life, so a
 * window's `view` is the id of the tab that owns it.
 */
module NativeShell {
  import opened Lists
  import opened Text

  type TabId = nat
  type WindowId = nat

  /** `window` is the back-pointer; `born` is whether the tab was made in a private window. */
  datatype Tab = Tab(id: TabId, window: WindowId, born: bool)

  datatype Window = Window(id: WindowId, privateMode: bool, tabs: seq<Tab>, view: Option<TabId>, closed: bool)

  /** The drag in progress, and the detach requests the main loop still has to run. */
  datatype Drag = Drag(dragging: Option<TabId>, completed: bool, cancelled: bool, pending: Option<TabId>,
                       queue: seq<TabId>)

  datatype Shell = Shell(appMode: bool, windows: seq<Window>, nextWindowId: WindowId, nextTabId: TabId, drag: Drag)

  const NO_DRAG := Drag(None, false, false, None, [])

  // ----- Lists -----

  /** Position of the tab called `id`, or the number of tabs. */
  function TabIndex(tabs: seq<Tab>, id: TabId): (i: nat)
    ensures i <= |tabs|
    ensures i < |tabs| ==> tabs[i].id == id
    ensures forall j :: 0 <= j < i ==> tabs[j].id != id
  {
    if tabs == [] || tabs[0].id == id then 0 else 1 + TabIndex(tabs[1..], id)
  }

  function WindowIndex(windows: seq<Window>, id: WindowId): (k: nat)
    ensures k <= |windows|
    ensures k < |windows| ==> windows[k].id == id
  {
    if windows == [] || windows[0].id == id then 0 else 1 + WindowIndex(windows[1..], id)
  }

  /** Position of the first window that owns the tab called `id`, or the number of windows. */
  function OwnerIndex(windows: seq<Window>, id: TabId): (k: nat)
    ensures k <= |windows|
    ensures k < |windows| ==> TabIndex(windows[k].tabs, id) < |windows[k].tabs|
    ensures forall j :: 0 <= j < k ==> TabIndex(windows[j].tabs, id) == |windows[j].tabs|
  {
    if windows == [] || TabIndex(windows[0].tabs, id) < |windows[0].tabs| then 0
    else 1 + OwnerIndex(windows[1..], id)
  }

  /** `agent_tab` for a non-zero id, and what a pointer to a tab leads to. */
  function FindTab(windows: seq<Window>, id: TabId): Option<Tab> {
    var k := OwnerIndex(windows, id);
    if k == |windows| then None else Some(windows[k].tabs[TabIndex(windows[k].tabs, id)])
  }

  /** `agent_tab` for id zero: what the first open window with a view shows. */
  function CurrentTab(windows: seq<Window>): Option<Tab> {
    if windows == [] then None
    else if !windows[0].closed && windows[0].view.Some? then
      var i := TabIndex(windows[0].tabs, windows[0].view.value);
      if i == |windows[0].tabs| then None else Some(windows[0].tabs[i])
    else CurrentTab(windows[1..])
  }

  // ----- Operations on values -----

  function OpenEmpty(s: Shell, privateMode: bool): Shell {
    s.(windows := s.windows + [Window(s.nextWindowId, privateMode, [], None, false)],
       nextWindowId := s.nextWindowId + 1)
  }

  /** Behind the active tab, or last when there is none. */
  function InsertionIndex(w: Window): (i: nat)
    ensures i <= |w.tabs|
  {
    if w.view.None? then |w.tabs|
    else
      var active := TabIndex(w.tabs, w.view.value);
      if active == |w.tabs| then |w.tabs| else active + 1
  }

  function InsertNew(s: Shell, k: nat): Shell
    requires k < |s.windows|
  {
    var w := s.windows[k];
    var tab := Tab(s.nextTabId, w.id, w.privateMode);
    s.(windows := s.windows[k := w.(tabs := WithAt(w.tabs, InsertionIndex(w), tab), view := Some(tab.id))],
       nextTabId := s.nextTabId + 1)
  }

  function OpenWindow(s: Shell, privateMode: bool): Shell {
    InsertNew(OpenEmpty(s, privateMode), |s.windows|)
  }

  function NewTabOf(s: Shell, window: WindowId): Shell {
    var k := WindowIndex(s.windows, window);
    if k == |s.windows| then s
    else if s.appMode && s.windows[k].tabs != [] then OpenWindow(s, s.windows[k].privateMode)
    else InsertNew(s, k)
  }

  function SelectOf(s: Shell, id: TabId): Shell {
    match FindTab(s.windows, id)
    case None => s
    case Some(tab) =>
      var k := WindowIndex(s.windows, tab.window);
      if k == |s.windows| then s else s.(windows := s.windows[k := s.windows[k].(view := Some(id))])
  }

  /** A window after the tab at `i` has left it; `dangling` says what an emptied window's view becomes. */
  function Left(w: Window, i: nat, dangling: Option<TabId>): Window
    requires i < |w.tabs|
  {
    var rest := Without(w.tabs, i);
    if rest == [] then w.(tabs := rest, view := dangling, closed := true)
    else w.(tabs := rest, view := if w.view == Some(w.tabs[i].id) then Some(rest[Min(i, |rest| - 1)].id) else w.view)
  }

  function CloseOf(s: Shell, id: TabId): Shell {
    match FindTab(s.windows, id)
    case None => s
    case Some(tab) =>
      var k := WindowIndex(s.windows, tab.window);
      if k == |s.windows| then s
      else
        var w := s.windows[k];
        var i := TabIndex(w.tabs, id);
        if i == |w.tabs| then s else s.(windows := s.windows[k := Left(w, i, w.view)])
  }

  /** The user closes a window: it keeps its tabs. */
  function CloseWindowOf(s: Shell, window: WindowId): Shell {
    var k := WindowIndex(s.windows, window);
    if k == |s.windows| then s else s.(windows := s.windows[k := s.windows[k].(closed := true)])
  }

  function MoveWithin(w: Window, i: nat, destination: nat): Window
    requires i < |w.tabs|
  {
    w.(tabs := WithAt(Without(w.tabs, i), Landing(i, Min(destination, |w.tabs|)), w.tabs[i]))
  }

  function Joined(w: Window, tab: Tab, destination: nat): Window {
    w.(tabs := WithAt(w.tabs, Min(destination, |w.tabs|), tab.(window := w.id)), view := Some(tab.id))
  }

  /** The guards of `move_tab_to_window`. */
  predicate Movable(s: Shell, id: TabId, target: WindowId) {
    var t := WindowIndex(s.windows, target);
    && t < |s.windows| && !s.windows[t].closed && !s.appMode
    && match FindTab(s.windows, id)
       case None => false
       case Some(tab) =>
         var k := WindowIndex(s.windows, tab.window);
         && k < |s.windows| && !s.windows[k].closed
         && s.windows[k].privateMode == s.windows[t].privateMode
         && TabIndex(s.windows[k].tabs, id) < |s.windows[k].tabs|
  }

  function MoveOf(s: Shell, id: TabId, target: WindowId, destination: nat): Shell {
    if !Movable(s, id, target) then s
    else
      var t := WindowIndex(s.windows, target);
      var k := WindowIndex(s.windows, FindTab(s.windows, id).value.window);
      var source := s.windows[k];
      var i := TabIndex(source.tabs, id);
      if k == t then s.(windows := s.windows[k := MoveWithin(source, i, destination)])
      else s.(windows := s.windows[k := Left(source, i, None)][t := Joined(s.windows[t], source.tabs[i], destination)])
  }

  // ----- Drags on values -----

  function BeginOf(s: Shell, id: TabId): Shell {
    s.(drag := s.drag.(dragging := Some(id), completed := false, cancelled := false))
  }

  function QueueDetach(d: Drag, id: TabId): Drag {
    if d.pending.Some? then d else d.(pending := Some(id), queue := d.queue + [id])
  }

  function DropOf(s: Shell, target: WindowId, destination: nat): Shell {
    if s.drag.dragging.Some? && Movable(s, s.drag.dragging.value, target) then
      MoveOf(s, s.drag.dragging.value, target, destination).(drag := s.drag.(completed := true))
    else s
  }

  function CancelOf(s: Shell, id: TabId, byUser: bool): Shell {
    var d := s.drag.(cancelled := true);
    s.(drag := if byUser then d else QueueDetach(d, id))
  }

  function EndOf(s: Shell, id: TabId): Shell {
    var d := if s.drag.dragging == Some(id) && !s.drag.completed && !s.drag.cancelled then QueueDetach(s.drag, id)
             else s.drag;
    s.(drag := d.(dragging := None, completed := false, cancelled := false))
  }

  /** Position of the open ordinary window that owns the tab, or the number of windows. */
  function OpenOwnerIndex(windows: seq<Window>, id: TabId): (k: nat)
    ensures k <= |windows|
    ensures k < |windows| ==> !windows[k].closed && TabIndex(windows[k].tabs, id) < |windows[k].tabs|
  {
    if windows == [] || (!windows[0].closed && TabIndex(windows[0].tabs, id) < |windows[0].tabs|) then 0
    else 1 + OpenOwnerIndex(windows[1..], id)
  }

  /** The idle callback's test for a request that is no longer the pending one. */
  predicate Superseded(d: Drag) {
    d.queue != [] && d.pending != Some(d.queue[0])
  }

  /** The idle callback for the oldest queued request. */
  function IdleOf(s: Shell): Shell {
    if s.drag.queue == [] then s
    else
      var request := s.drag.queue[0];
      var s1 := s.(drag := s.drag.(queue := s.drag.queue[1..]));
      if Superseded(s.drag) then s1
      else
        var s2 := s1.(drag := s1.drag.(pending := None));
        var k := if s.appMode then |s.windows| else OpenOwnerIndex(s.windows, request);
        if k == |s.windows| then s2
        else MoveOf(OpenEmpty(s2, s.windows[k].privateMode), request, s.nextWindowId, 0)
  }

  // ----- The object -----

  class Application {
    const appMode: bool
    var windows: seq<Window>
    var nextWindowId: WindowId
    var nextTabId: TabId
    var dragging: Option<TabId>
    var dropCompleted: bool
    var dragCancelled: bool
    var pendingDetach: Option<TabId>
    var idleQueue: seq<TabId>

    function Contents(): Shell
      reads this
    {
      Shell(appMode, windows, nextWindowId, nextTabId,
            Drag(dragging, dropCompleted, dragCancelled, pendingDetach, idleQueue))
    }

    constructor (appMode: bool)
      ensures Contents() == Shell(appMode, [], 1, 1, NO_DRAG)
    {
      this.appMode := appMode;
      windows, nextWindowId, nextTabId := [], 1, 1;
      dragging, dropCompleted, dragCancelled, pendingDetach, idleQueue := None, false, false, None, [];
    }

    /** `find_if` over the tabs of one window. */
    method FindIn(k: nat, id: TabId) returns (i: nat)
      requires k < |windows|
      ensures i == TabIndex(windows[k].tabs, id)
    {
      var tabs := windows[k].tabs;
      i := 0;
      while i < |tabs| && tabs[i].id != id
        invariant i <= |tabs| && TabIndex(tabs, id) == i + TabIndex(tabs[i..], id)
      {
        assert tabs[i..][1..] == tabs[i + 1..];
        i := i + 1;
      }
    }

    method FindWindow(id: WindowId) returns (k: nat)
      ensures k == WindowIndex(windows, id)
    {
      k := 0;
      while k < |windows| && windows[k].id != id
        invariant k <= |windows| && WindowIndex(windows, id) == k + WindowIndex(windows[k..], id)
      {
        assert windows[k..][1..] == windows[k + 1..];
        k := k + 1;
      }
    }

    /** `agent_tab`: for a non-zero id every window is searched, closed ones too. */
    method AgentTab(id: TabId) returns (tab: Option<Tab>)
      ensures tab == if id == 0 then CurrentTab(windows) else FindTab(windows, id)
    {
      if id == 0 {
        tab := FindCurrent();
      } else {
        tab := TabOf(id);
      }
    }

    method FindCurrent() returns (tab: Option<Tab>)
      ensures tab == CurrentTab(windows)
    {
      var k := 0;
      while k < |windows|
        invariant k <= |windows| && CurrentTab(windows) == CurrentTab(windows[k..])
      {
        var w := windows[k];
        if !w.closed && w.view.Some? {
          var i := FindIn(k, w.view.value);
          return if i == |w.tabs| then None else Some(w.tabs[i]);
        }
        assert windows[k..][1..] == windows[k + 1..];
        k := k + 1;
      }
      tab := None;
    }

    /** The tab a pointer leads to. */
    method TabOf(id: TabId) returns (tab: Option<Tab>)
      ensures tab == FindTab(windows, id)
    {
      var k := 0;
      while k < |windows|
        invariant k <= |windows| && OwnerIndex(windows, id) == k + OwnerIndex(windows[k..], id)
      {
        var i := FindIn(k, id);
        if i < |windows[k].tabs| { return Some(windows[k].tabs[i]); }
        assert windows[k..][1..] == windows[k + 1..];
        k := k + 1;
      }
      tab := None;
    }

    method CreateEmptyWindow(privateMode: bool)
      modifies `windows, `nextWindowId
      ensures Contents() == OpenEmpty(old(Contents()), privateMode)
    {
      windows := windows + [Window(nextWindowId, privateMode, [], None, false)];
      nextWindowId := nextWindowId + 1;
    }

    /** The end of `new_tab`. */
    method InsertTab(k: nat)
      requires k < |windows|
      modifies `windows, `nextTabId
      ensures Contents() == InsertNew(old(Contents()), k)
    {
      var w := windows[k];
      var tab := Tab(nextTabId, w.id, w.privateMode);
      nextTabId := nextTabId + 1;
      var index := |w.tabs|;
      if w.view.Some? {
        var active := FindIn(k, w.view.value);
        if active < |w.tabs| { index := active + 1; }
      }
      w := w.(tabs := w.tabs[..index] + [tab] + w.tabs[index..]);
      w := w.(view := Some(tab.id));
      windows := windows[k := w];
    }

    /** `create_window` with its initial tab: the new window is empty, so the tab goes into it. */
    method CreateWindow(privateMode: bool)
      modifies `windows, `nextWindowId, `nextTabId
      ensures Contents() == OpenWindow(old(Contents()), privateMode)
    {
      CreateEmptyWindow(privateMode);
      InsertTab(|windows| - 1);
    }

    method NewTab(window: WindowId)
      modifies `windows, `nextWindowId, `nextTabId
      ensures Contents() == NewTabOf(old(Contents()), window)
    {
      var k := FindWindow(window);
      if k == |windows| { return; }
      if appMode && windows[k].tabs != [] {
        CreateWindow(windows[k].privateMode);
      } else {
        InsertTab(k);
      }
    }

    method SelectTab(id: TabId)
      modifies `windows
      ensures Contents() == SelectOf(old(Contents()), id)
    {
      var tab := TabOf(id);
      if tab.None? { return; }
      var k := FindWindow(tab.value.window);
      if k == |windows| { return; }
      windows := windows[k := windows[k].(view := Some(id))];
    }

    method CloseTab(id: TabId)
      modifies `windows
      ensures Contents() == CloseOf(old(Contents()), id)
    {
      hide FindTab, TabIndex, WindowIndex;
      var tab := TabOf(id);
      if tab.None? { return; }
      var k := FindWindow(tab.value.window);
      if k == |windows| { return; }
      var i := FindIn(k, id);
      var w := windows[k];
      if i == |w.tabs| { return; }
      var wasActive := w.view == Some(id);
      w := w.(tabs := w.tabs[..i] + w.tabs[i + 1..]);
      if w.tabs == [] {
        w := w.(closed := true);
      } else if wasActive {
        w := w.(view := Some(w.tabs[Min(i, |w.tabs| - 1)].id));
      }
      windows := windows[k := w];
    }

    /** The close-request handler. */
    method WindowClosing(window: WindowId)
      modifies `windows
      ensures Contents() == CloseWindowOf(old(Contents()), window)
    {
      var k := FindWindow(window);
      if k < |windows| { windows := windows[k := windows[k].(closed := true)]; }
    }

    method MoveTabToWindow(id: TabId, target: WindowId, gap: nat) returns (ok: bool)
      modifies `windows
      ensures Contents() == MoveOf(old(Contents()), id, target, gap)
      ensures ok == old(Movable(Contents(), id, target))
    {
      hide WithAt, Without, FindTab, TabIndex, WindowIndex;
      var t := FindWindow(target);
      if t == |windows| || windows[t].closed || appMode { return false; }
      var tab := TabOf(id);
      if tab.None? { return false; }
      var k := FindWindow(tab.value.window);
      if k == |windows| || windows[k].closed || windows[k].privateMode != windows[t].privateMode { return false; }
      var i := FindIn(k, id);
      var source := windows[k];
      if i == |source.tabs| { return false; }
      if k == t {
        var destination := Min(gap, |source.tabs|);
        if destination > i { destination := destination - 1; }
        PutBack(source.tabs, i);
        if destination == i { return true; }
        windows := windows[k := source.(tabs := WithAt(Without(source.tabs, i), destination, source.tabs[i]))];
        return true;
      }
      var wasActive := source.view == Some(id);
      var owned := source.tabs[i];
      source := source.(tabs := Without(source.tabs, i));
      owned := owned.(window := windows[t].id);
      var destination := Min(gap, |windows[t].tabs|);
      windows := windows[t := windows[t].(tabs := WithAt(windows[t].tabs, destination, owned), view := Some(id))];
      if source.tabs == [] {
        source := source.(view := None, closed := true);
      } else if wasActive {
        source := source.(view := Some(source.tabs[Min(i, |source.tabs| - 1)].id));
      }
      windows := windows[k := source];
      ok := true;
    }

    // ----- Drags -----

    method TabDragBegin(tab: TabId)
      modifies `dragging, `dropCompleted, `dragCancelled
      ensures Contents() == BeginOf(old(Contents()), tab)
    {
      dragging := Some(tab);
      dropCompleted := false;
      dragCancelled := false;
    }

    method QueueTabDetach(tab: TabId)
      modifies `pendingDetach, `idleQueue
      ensures Contents() == old(Contents()).(drag := QueueDetach(old(Contents()).drag, tab))
    {
      if pendingDetach.Some? { return; }
      pendingDetach := Some(tab);
      idleQueue := idleQueue + [tab];
    }

    method TabDragCancel(tab: TabId, byUser: bool) returns (handled: bool)
      modifies `dragCancelled, `pendingDetach, `idleQueue
      ensures Contents() == CancelOf(old(Contents()), tab, byUser) && handled == !byUser
    {
      dragCancelled := true;
      if !byUser { QueueTabDetach(tab); }
      handled := !byUser;
    }

    method TabDragEnd(tab: TabId)
      modifies `dragging, `dropCompleted, `dragCancelled, `pendingDetach, `idleQueue
      ensures Contents() == EndOf(old(Contents()), tab)
    {
      if dragging == Some(tab) && !dropCompleted && !dragCancelled { QueueTabDetach(tab); }
      dragging := None;
      dropCompleted := false;
      dragCancelled := false;
    }

    method TabDropped(target: WindowId, destination: nat) returns (ok: bool)
      modifies `windows, `dropCompleted
      ensures Contents() == DropOf(old(Contents()), target, destination)
      ensures ok == old(dragging.Some? && Movable(Contents(), dragging.value, target))
    {
      hide MoveOf, Movable;
      if dragging.None? { return false; }
      NotMovable(Contents(), dragging.value, target, destination);
      ok := MoveTabToWindow(dragging.value, target, destination);
      if ok { dropCompleted := true; }
    }

    /** The search for the window a detached tab comes from: closed and application windows are skipped. */
    method FindDetachSource(request: TabId) returns (k: nat)
      ensures k == if appMode then |windows| else OpenOwnerIndex(windows, request)
    {
      hide TabIndex;
      k := 0;
      while k < |windows|
        invariant k <= |windows|
        invariant !appMode ==> OpenOwnerIndex(windows, request) == k + OpenOwnerIndex(windows[k..], request)
      {
        if !windows[k].closed && !appMode {
          var i := FindIn(k, request);
          if i < |windows[k].tabs| { return; }
        }
        assert windows[k..][1..] == windows[k + 1..];
        k := k + 1;
      }
    }

    /** The idle callback; it runs when the main loop has a request for it. */
    method DetachTabDeferred()
      requires idleQueue != []
      modifies `windows, `nextWindowId, `pendingDetach, `idleQueue
      ensures Contents() == IdleOf(old(Contents()))
    {
      hide MoveOf, OpenOwnerIndex;
      var request := idleQueue[0];
      idleQueue := idleQueue[1..];
      if pendingDetach != Some(request) { return; }
      pendingDetach := None;
      var k := FindDetachSource(request);
      if k == |windows| { return; }
      var privateMode, made := windows[k].privateMode, nextWindowId;
      CreateEmptyWindow(privateMode);
      var ok := MoveTabToWindow(request, made, 0);
    }
  }

  lemma NotMovable(s: Shell, id: TabId, target: WindowId, destination: nat)
    ensures !Movable(s, id, target) ==> MoveOf(s, id, target, destination) == s
  {
  }
}
