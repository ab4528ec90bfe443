/**
 * The tab strip with its recently-closed stack (src/browser_model.cpp:9-99). The class is the
 * source's object; `Model` is its abstract value, on which whole runs are reasoned about.
 */
module BrowserModel {
  import opened Lists
  import opened Text

  type TabId = nat

  datatype TabLifecycle = Live | Closed
  datatype FocusTarget = Page | Address | CommandPalette

  datatype Tab = Tab(id: TabId, uri: Bytes, title: Bytes, loading: bool, discarded: bool, privateMode: bool,
                     audible: bool, lifecycle: TabLifecycle)

  datatype Model = Model(closedLimit: nat, nextId: TabId, tabs: seq<Tab>, closed: seq<Tab>, active: Option<TabId>,
                         focus: FocusTarget)

  // ----- Operations on values -----

  /** Position of the first tab called `id`, or the number of tabs. */
  function TabIndex(tabs: seq<Tab>, id: TabId): (i: nat)
    ensures i <= |tabs|
    ensures i < |tabs| ==> tabs[i].id == id
    ensures forall j :: 0 <= j < i ==> tabs[j].id != id
  {
    if tabs == [] || tabs[0].id == id then 0 else 1 + TabIndex(tabs[1..], id)
  }

  predicate Has(m: Model, id: TabId) { TabIndex(m.tabs, id) < |m.tabs| }

  function NewTabOf(m: Model, uri: Bytes, activate: bool): Model {
    m.(nextId := m.nextId + 1,
       tabs := m.tabs + [Tab(m.nextId, uri, "New tab", false, false, false, false, Live)],
       active := if activate then Some(m.nextId) else m.active)
  }

  function ActivateOf(m: Model, id: TabId): Model {
    var i := TabIndex(m.tabs, id);
    if i == |m.tabs| then m
    else m.(tabs := m.tabs[i := m.tabs[i].(discarded := false)], active := Some(id), focus := Page)
  }

  function Push(closed: seq<Tab>, tab: Tab, limit: nat): seq<Tab> {
    var all := closed + [tab.(lifecycle := Closed)];
    if limit == 0 then closed else if |all| > limit then all[1..] else all
  }

  function CloseOf(m: Model, id: TabId): Model {
    var i := TabIndex(m.tabs, id);
    if i == |m.tabs| then m
    else
      var rest := Without(m.tabs, i);
      m.(tabs := rest,
         closed := Push(m.closed, m.tabs[i], m.closedLimit),
         active := if m.active != Some(id) then m.active
                   else if rest == [] then None
                   else Some(rest[if i < |rest| then i else |rest| - 1].id))
  }

  function Restored(tab: Tab, id: TabId): Tab {
    tab.(id := id, loading := false, lifecycle := Live)
  }

  function ReopenOf(m: Model): Model {
    if m.closed == [] then m
    else
      var last := |m.closed| - 1;
      m.(nextId := m.nextId + 1,
         closed := m.closed[..last],
         tabs := m.tabs + [Restored(m.closed[last], m.nextId)],
         active := Some(m.nextId))
  }

  function DuplicateOf(m: Model, id: TabId): Model {
    var i := TabIndex(m.tabs, id);
    if i == |m.tabs| then m else NewTabOf(m, m.tabs[i].uri, true)
  }

  function MoveOf(m: Model, id: TabId, gap: nat): Model {
    var i := TabIndex(m.tabs, id);
    if i == |m.tabs| || gap > |m.tabs| then m
    else m.(tabs := WithAt(Without(m.tabs, i), Landing(i, gap), m.tabs[i]))
  }

  function Resident(tabs: seq<Tab>): nat {
    if tabs == [] then 0 else Resident(tabs[..|tabs| - 1]) + if tabs[|tabs| - 1].discarded then 0 else 1
  }

  /** A tab that may be discarded: not active, not loading, not discarded already. */
  predicate Eligible(tab: Tab, active: Option<TabId>) {
    active != Some(tab.id) && !tab.loading && !tab.discarded
  }

  function CountEligible(tabs: seq<Tab>, active: Option<TabId>): nat {
    if tabs == [] then 0
    else CountEligible(tabs[..|tabs| - 1], active) + if Eligible(tabs[|tabs| - 1], active) then 1 else 0
  }

  function Excess(resident: nat, limit: nat): nat {
    if resident > limit then resident - limit else 0
  }

  /** The leftmost `count` eligible tabs are discarded and nothing else changes. */
  function DiscardLeftmost(tabs: seq<Tab>, active: Option<TabId>, count: nat): (r: seq<Tab>)
    ensures |r| == |tabs|
  {
    seq(|tabs|, i requires 0 <= i < |tabs| =>
      if Eligible(tabs[i], active) && CountEligible(tabs[..i], active) < count then tabs[i].(discarded := true)
      else tabs[i])
  }

  function DiscardOf(m: Model, limit: nat): Model {
    m.(tabs := DiscardLeftmost(m.tabs, m.active, Excess(Resident(m.tabs), limit)))
  }

  /** What a caller may write through the pointer `find` hands out, the id and lifecycle apart. */
  function EditOf(m: Model, id: TabId, page: Tab): Model {
    var i := TabIndex(m.tabs, id);
    if i == |m.tabs| then m
    else m.(tabs := m.tabs[i := page.(id := id, lifecycle := m.tabs[i].lifecycle)])
  }

  // ----- The object -----

  class BrowserModel {
    const workspace: Bytes
    const closedLimit: nat
    var nextId: TabId
    var tabs: seq<Tab>
    var closed: seq<Tab>
    var active: Option<TabId>
    var focus: FocusTarget

    function Contents(): Model
      reads this
    {
      Model(closedLimit, nextId, tabs, closed, active, focus)
    }

    constructor (workspace: Bytes, closedLimit: nat)
      requires workspace != []
      ensures this.workspace == workspace
      ensures Contents() == Model(closedLimit, 1, [], [], None, Page)
    {
      this.workspace, this.closedLimit := workspace, closedLimit;
      nextId, tabs, closed, active, focus := 1, [], [], None, Page;
    }

    /** The source throws `invalid_argument` for an empty workspace. */
    static method Create(workspace: Bytes, closedLimit: nat) returns (r: Option<BrowserModel>)
      ensures r.None? <==> workspace == []
      ensures r.Some? ==> fresh(r.value) && r.value.Contents() == Model(closedLimit, 1, [], [], None, Page)
    {
      if workspace == [] { return None; }
      var model := new BrowserModel(workspace, closedLimit);
      r := Some(model);
    }

    method FindIndex(id: TabId) returns (i: nat)
      ensures i == TabIndex(tabs, id)
    {
      i := 0;
      while i < |tabs| && tabs[i].id != id
        invariant i <= |tabs| && TabIndex(tabs, id) == i + TabIndex(tabs[i..], id)
      {
        assert tabs[i..][1..] == tabs[i + 1..];
        i := i + 1;
      }
    }

    method NewTab(uri: Bytes, activate: bool) returns (id: TabId)
      modifies this
      ensures Contents() == NewTabOf(old(Contents()), uri, activate) && id == old(nextId)
    {
      id := nextId;
      nextId := nextId + 1;
      tabs := tabs + [Tab(id, uri, "New tab", false, false, false, false, Live)];
      if activate { active := Some(id); }
    }

    method Activate(id: TabId) returns (ok: bool)
      modifies this
      ensures Contents() == ActivateOf(old(Contents()), id) && ok == old(Has(Contents(), id))
    {
      var i := FindIndex(id);
      if i == |tabs| { return false; }
      tabs := tabs[i := tabs[i].(discarded := false)];
      active := Some(id);
      focus := Page;
      ok := true;
    }

    method DiscardToLimit(residentLimit: nat) returns (discarded: nat)
      modifies `tabs
      ensures Contents() == DiscardOf(old(Contents()), residentLimit)
      ensures discarded == Min(Excess(Resident(old(tabs)), residentLimit), CountEligible(old(tabs), active))
    {
      var resident := CountResident();
      tabs, discarded := DiscardWhile(tabs, active, resident, residentLimit);
    }

    /** The loop over the strip. */
    static method DiscardWhile(before: seq<Tab>, active: Option<TabId>, resident: nat, residentLimit: nat)
      returns (tabs: seq<Tab>, discarded: nat)
      ensures tabs == DiscardLeftmost(before, active, Excess(resident, residentLimit))
      ensures discarded == Min(Excess(resident, residentLimit), CountEligible(before, active))
    {
      ghost var excess := Excess(resident, residentLimit);
      ghost var done := DiscardLeftmost(before, active, excess);
      hide DiscardLeftmost;
      tabs, discarded := before, 0;
      for i := 0 to |tabs|
        invariant |tabs| == |before| && tabs == done[..i] + before[i..]
        invariant discarded == CountEligible(before[..i], active) <= excess
      {
        if resident - discarded <= residentLimit {
          RestIsUntouched(before, active, i, excess);
          return;
        }
        DiscardOne(before, active, i, excess);
        var tab := tabs[i];
        if (active.None? || tab.id != active.value) && !tab.loading && !tab.discarded {
          tabs := tabs[i := tab.(discarded := true)];
          discarded := discarded + 1;
        }
      }
      assert before[..|before|] == before && done[..|before|] == done;
    }

    method CountResident() returns (n: nat)
      ensures n == Resident(tabs)
    {
      n := 0;
      for i := 0 to |tabs|
        invariant n == Resident(tabs[..i])
      {
        assert tabs[..i + 1][..i] == tabs[..i];
        if !tabs[i].discarded { n := n + 1; }
      }
      assert tabs[..|tabs|] == tabs;
    }

    method CloseTab(id: TabId) returns (ok: bool)
      modifies this
      ensures Contents() == CloseOf(old(Contents()), id) && ok == old(Has(Contents(), id))
    {
      hide TabIndex;
      var i := FindIndex(id);
      if i == |tabs| { return false; }
      if closedLimit > 0 {
        closed := closed + [tabs[i].(lifecycle := Closed)];
        if |closed| > closedLimit { closed := closed[1..]; }
      }
      tabs := tabs[..i] + tabs[i + 1..];
      if active == Some(id) {
        if tabs == [] { active := None; }
        else { active := Some(tabs[if i < |tabs| - 1 then i else |tabs| - 1].id); }
      }
      ok := true;
    }

    method ReopenClosed() returns (id: Option<TabId>)
      modifies this
      ensures Contents() == ReopenOf(old(Contents()))
      ensures id == if old(closed) == [] then None else Some(old(nextId))
    {
      if closed == [] { return None; }
      var tab := closed[|closed| - 1];
      closed := closed[..|closed| - 1];
      tab := tab.(id := nextId, loading := false, lifecycle := Live);
      nextId := nextId + 1;
      tabs := tabs + [tab];
      active := Some(tab.id);
      id := active;
    }

    method DuplicateTab(id: TabId) returns (copy: Option<TabId>)
      modifies this
      ensures Contents() == DuplicateOf(old(Contents()), id)
      ensures copy == if old(Has(Contents(), id)) then Some(old(nextId)) else None
    {
      var i := FindIndex(id);
      if i == |tabs| { return None; }
      var made := NewTab(tabs[i].uri, true);
      copy := Some(made);
    }

    method MoveTab(id: TabId, gap: nat) returns (ok: bool)
      modifies this
      ensures Contents() == MoveOf(old(Contents()), id, gap)
      ensures ok == (old(Has(Contents(), id)) && gap <= |old(tabs)|)
    {
      hide TabIndex;
      var source := FindIndex(id);
      if source == |tabs| || gap > |tabs| { return false; }
      var tab, destination := tabs[source], gap;
      tabs := tabs[..source] + tabs[source + 1..];
      if destination > source { destination := destination - 1; }
      tabs := tabs[..destination] + [tab] + tabs[destination..];
      ok := true;
    }

    /** The tab `find` points to. */
    method Find(id: TabId) returns (tab: Option<Tab>)
      ensures tab == if Has(Contents(), id) then Some(tabs[TabIndex(tabs, id)]) else None
    {
      var i := FindIndex(id);
      tab := if i == |tabs| then None else Some(tabs[i]);
    }

    method SetFocus(focus: FocusTarget)
      modifies this
      ensures Contents() == old(Contents()).(focus := focus)
    {
      this.focus := focus;
    }
  }

  lemma DiscardOne(tabs: seq<Tab>, active: Option<TabId>, i: nat, count: nat)
    requires i < |tabs| && CountEligible(tabs[..i], active) < count
    ensures var done := DiscardLeftmost(tabs, active, count);
            && done[i] == (if Eligible(tabs[i], active) then tabs[i].(discarded := true) else tabs[i])
            && (done[..i] + tabs[i..])[i := done[i]] == done[..i + 1] + tabs[i + 1..]
            && (done[..i] + tabs[i..])[i] == tabs[i]
    ensures CountEligible(tabs[..i + 1], active)
            == CountEligible(tabs[..i], active) + if Eligible(tabs[i], active) then 1 else 0
  {
    assert tabs[..i + 1][..i] == tabs[..i];
  }

  /** Once enough eligible tabs lie to the left, the rest of the strip stays as it is. */
  lemma RestIsUntouched(tabs: seq<Tab>, active: Option<TabId>, i: nat, count: nat)
    requires i <= |tabs| && CountEligible(tabs[..i], active) >= count
    ensures var done := DiscardLeftmost(tabs, active, count);
            done[..i] + tabs[i..] == done
    ensures CountEligible(tabs, active) >= count
  {
    forall j | i <= j <= |tabs|
      ensures CountEligible(tabs[..j], active) >= count
    {
      CountMonotone(tabs, active, i, j);
    }
    assert tabs[..|tabs|] == tabs;
  }

  lemma {:induction false} CountMonotone(tabs: seq<Tab>, active: Option<TabId>, i: nat, j: nat)
    requires i <= j <= |tabs|
    ensures CountEligible(tabs[..i], active) <= CountEligible(tabs[..j], active)
  {
    if i < j {
      assert tabs[..j][..j - 1] == tabs[..j - 1];
      CountMonotone(tabs, active, i, j - 1);
    }
  }
}
