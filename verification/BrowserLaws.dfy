/** What holds of the tab strip over whole runs (src/browser_model.cpp:14-99). */
module BrowserLaws {
  import opened Lists
  import opened Text
  import opened BrowserModel

  datatype Op =
    | NewTab(uri: Bytes, activate: bool)
    | Activate(id: TabId)
    | Discard(limit: nat)
    | Close(id: TabId)
    | Reopen
    | Duplicate(id: TabId)
    | Move(id: TabId, gap: nat)
    | Edit(id: TabId, page: Tab)
    | SetFocus(focus: FocusTarget)

  function Apply(m: Model, op: Op): Model {
    match op
    case NewTab(uri, activate) => NewTabOf(m, uri, activate)
    case Activate(id) => ActivateOf(m, id)
    case Discard(limit) => DiscardOf(m, limit)
    case Close(id) => CloseOf(m, id)
    case Reopen => ReopenOf(m)
    case Duplicate(id) => DuplicateOf(m, id)
    case Move(id, gap) => MoveOf(m, id, gap)
    case Edit(id, page) => EditOf(m, id, page)
    case SetFocus(focus) => m.(focus := focus)
  }

  function Run(m: Model, ops: seq<Op>): Model
    decreases |ops|
  {
    if ops == [] then m else Run(Apply(m, ops[0]), ops[1..])
  }

  function Initial(closedLimit: nat): Model {
    Model(closedLimit, 1, [], [], None, Page)
  }

  // ----- The invariant -----

  function Ids(tabs: seq<Tab>): seq<TabId> {
    seq(|tabs|, i requires 0 <= i < |tabs| => tabs[i].id)
  }

  /** Every id the model holds, in the strip or on the closed stack, as often as it holds it. */
  ghost function Held(m: Model): multiset<TabId> {
    multiset(Ids(m.tabs)) + multiset(Ids(m.closed))
  }

  /** No id is held twice, and all of them have been issued. */
  ghost predicate Unique(ids: multiset<TabId>, below: TabId) {
    forall id :: id in ids ==> 0 < id < below && ids[id] == 1
  }

  /** The active tab is in the strip, lifecycles fit, and the stack is within its limit. */
  ghost predicate Shape(m: Model) {
    && (m.active.Some? ==> m.active.value in Ids(m.tabs))
    && (forall i :: 0 <= i < |m.tabs| ==> m.tabs[i].lifecycle == Live)
    && (forall i :: 0 <= i < |m.closed| ==> m.closed[i].lifecycle == Closed)
    && |m.closed| <= m.closedLimit
  }

  ghost predicate Inv(m: Model) {
    0 < m.nextId && Unique(Held(m), m.nextId) && Shape(m)
  }

  lemma IdsConcat(a: seq<Tab>, b: seq<Tab>)
    ensures Ids(a + b) == Ids(a) + Ids(b)
  {
  }

  lemma IdsWithout(tabs: seq<Tab>, i: nat)
    requires i < |tabs|
    ensures Ids(Without(tabs, i)) == Without(Ids(tabs), i)
    ensures multiset(Ids(tabs)) == multiset(Ids(Without(tabs, i))) + multiset{tabs[i].id}
  {
    WithoutBag(Ids(tabs), i);
  }

  lemma IdsWithAt(tabs: seq<Tab>, i: nat, tab: Tab)
    requires i <= |tabs|
    ensures Ids(WithAt(tabs, i, tab)) == WithAt(Ids(tabs), i, tab.id)
    ensures multiset(Ids(WithAt(tabs, i, tab))) == multiset(Ids(tabs)) + multiset{tab.id}
  {
    WithAtBag(Ids(tabs), i, tab.id);
  }

  // ----- One step -----

  lemma PushHeld(closed: seq<Tab>, tab: Tab, limit: nat)
    ensures multiset(Ids(Push(closed, tab, limit))) <= multiset(Ids(closed)) + multiset{tab.id}
  {
    var all := closed + [tab.(lifecycle := Closed)];
    AppendHeld(closed, tab.(lifecycle := Closed));
    IdsWithout(all, 0);
    assert Without(all, 0) == all[1..];
  }

  lemma AppendHeld(tabs: seq<Tab>, tab: Tab)
    ensures multiset(Ids(tabs + [tab])) == multiset(Ids(tabs)) + multiset{tab.id}
  {
    IdsConcat(tabs, [tab]);
    assert Ids([tab]) == [tab.id];
  }

  lemma CloseHeld(m: Model, id: TabId)
    ensures Held(CloseOf(m, id)) <= Held(m)
  {
    hide Ids;
    var i := TabIndex(m.tabs, id);
    if i < |m.tabs| {
      IdsWithout(m.tabs, i);
      PushHeld(m.closed, m.tabs[i], m.closedLimit);
    }
  }

  lemma ReopenHeld(m: Model)
    ensures Held(ReopenOf(m)) <= Held(m) + multiset{m.nextId}
  {
    hide Ids;
    if m.closed != [] {
      var last := |m.closed| - 1;
      AppendHeld(m.tabs, Restored(m.closed[last], m.nextId));
      IdsWithout(m.closed, last);
      assert Without(m.closed, last) == m.closed[..last];
    }
  }

  lemma MoveHeld(m: Model, id: TabId, gap: nat)
    ensures multiset(Ids(MoveOf(m, id, gap).tabs)) == multiset(Ids(m.tabs))
  {
    hide Ids;
    var i := TabIndex(m.tabs, id);
    if i < |m.tabs| && gap <= |m.tabs| {
      IdsWithout(m.tabs, i);
      IdsWithAt(Without(m.tabs, i), Landing(i, gap), m.tabs[i]);
    }
  }

  /** Operations that keep every tab in its place. */
  lemma SameIds(m: Model, op: Op)
    requires op.Activate? || op.Discard? || op.Edit? || op.SetFocus?
    ensures var r := Apply(m, op);
            Ids(r.tabs) == Ids(m.tabs) && r.closed == m.closed && r.nextId == m.nextId
  {
    hide TabIndex;
    assert forall i :: 0 <= i < |m.tabs| ==> Apply(m, op).tabs[i].id == m.tabs[i].id;
  }

  lemma NewHeld(m: Model, uri: Bytes, activate: bool)
    ensures Held(NewTabOf(m, uri, activate)) == Held(m) + multiset{m.nextId}
  {
    hide Ids;
    AppendHeld(m.tabs, Tab(m.nextId, uri, "New tab", false, false, false, false, Live));
  }

  /** An operation holds no id but those held before and the next one. */
  lemma ApplyHeld(m: Model, op: Op)
    ensures var r := Apply(m, op);
            && m.nextId <= r.nextId <= m.nextId + 1
            && Held(r) <= Held(m) + (if r.nextId == m.nextId then multiset{} else multiset{m.nextId})
  {
    hide Held, TabIndex;
    match op
    case NewTab(uri, activate) => NewHeld(m, uri, activate);
    case Close(id) => CloseHeld(m, id);
    case Reopen => ReopenHeld(m);
    case Duplicate(id) =>
      var i := TabIndex(m.tabs, id);
      if i < |m.tabs| { NewHeld(m, m.tabs[i].uri, true); }
    case Move(id, gap) => MoveKeepsHeld(m, id, gap);
    case _ => SameHeld(m, op);
  }

  lemma MoveKeepsHeld(m: Model, id: TabId, gap: nat)
    ensures Held(MoveOf(m, id, gap)) == Held(m)
  {
    hide Ids;
    MoveHeld(m, id, gap);
  }

  lemma SameHeld(m: Model, op: Op)
    requires op.Activate? || op.Discard? || op.Edit? || op.SetFocus?
    ensures Held(Apply(m, op)) == Held(m)
  {
    hide Ids;
    SameIds(m, op);
  }

  lemma CloseShape(m: Model, id: TabId)
    requires Shape(m)
    ensures Shape(CloseOf(m, id))
  {
    var i := TabIndex(m.tabs, id);
    var r := CloseOf(m, id);
    if i < |m.tabs| && r.active.Some? {
      if m.active.value != id {
        var j :| 0 <= j < |m.tabs| && Ids(m.tabs)[j] == m.active.value;
        assert Ids(r.tabs)[if j < i then j else j - 1] == m.active.value;
      } else {
        var k := if i < |r.tabs| then i else |r.tabs| - 1;
        assert Ids(r.tabs)[k] == r.tabs[k].id;
      }
    }
  }

  lemma AppendShape(tabs: seq<Tab>, tab: Tab)
    ensures tab.id in Ids(tabs + [tab])
    ensures forall id :: id in Ids(tabs) ==> id in Ids(tabs + [tab])
  {
    IdsConcat(tabs, [tab]);
    assert Ids([tab]) == [tab.id];
  }

  lemma MoveShape(m: Model, id: TabId, gap: nat)
    requires Shape(m)
    ensures Shape(MoveOf(m, id, gap))
  {
    hide Ids, MoveOf;
    var r := MoveOf(m, id, gap);
    MoveHeld(m, id, gap);
    MoveKeepsRest(m, id, gap);
    assert m.active.Some? ==> m.active.value in multiset(Ids(m.tabs));
    assert r.active.Some? ==> r.active.value in multiset(Ids(r.tabs));
  }

  lemma MoveKeepsRest(m: Model, id: TabId, gap: nat)
    requires forall i :: 0 <= i < |m.tabs| ==> m.tabs[i].lifecycle == Live
    ensures var r := MoveOf(m, id, gap);
            r == m.(tabs := r.tabs) && forall i :: 0 <= i < |r.tabs| ==> r.tabs[i].lifecycle == Live
  {
    hide TabIndex;
    var i, r := TabIndex(m.tabs, id), MoveOf(m, id, gap);
    if i < |m.tabs| && gap <= |m.tabs| {
      MovedFrom(m.tabs, i, Landing(i, gap));
    }
  }

  lemma MovedFrom<T>(s: seq<T>, i: nat, d: nat)
    requires i < |s| && d < |s|
    ensures forall k :: 0 <= k < |s| ==> WithAt(Without(s, i), d, s[i])[k] in s
  {
    var rest := Without(s, i);
    assert forall k :: 0 <= k < |rest| ==> rest[k] == s[if k < i then k else k + 1];
    var t := WithAt(rest, d, s[i]);
    assert forall k :: 0 <= k < |t| && k != d ==> t[k] == rest[if k < d then k else k - 1];
  }

  lemma ApplyShape(m: Model, op: Op)
    requires Shape(m)
    ensures Shape(Apply(m, op))
  {
    match op
    case NewTab(uri, activate) =>
      AppendShape(m.tabs, Tab(m.nextId, uri, "New tab", false, false, false, false, Live));
    case Activate(id) =>
      SameIds(m, op);
      HasIsHeld(m, id);
    case Close(id) => CloseShape(m, id);
    case Reopen =>
      if m.closed != [] { AppendShape(m.tabs, Restored(m.closed[|m.closed| - 1], m.nextId)); }
    case Duplicate(id) =>
      var i := TabIndex(m.tabs, id);
      if i < |m.tabs| {
        AppendShape(m.tabs, Tab(m.nextId, m.tabs[i].uri, "New tab", false, false, false, false, Live));
      }
    case Move(id, gap) => MoveShape(m, id, gap);
    case _ => SameIds(m, op);
  }

  lemma UniqueGrows(ids: multiset<TabId>, more: multiset<TabId>, next: TabId, grow: bool)
    requires 0 < next && Unique(ids, next)
    requires more <= ids + (if grow then multiset{next} else multiset{})
    ensures Unique(more, if grow then next + 1 else next)
  {
  }

  lemma ApplyKeepsInv(m: Model, op: Op)
    requires Inv(m)
    ensures Inv(Apply(m, op))
  {
    hide Shape, Held, Apply, Unique;
    ApplyHeld(m, op);
    ApplyShape(m, op);
    UniqueGrows(Held(m), Held(Apply(m, op)), m.nextId, Apply(m, op).nextId != m.nextId);
  }

  // ----- Whole runs -----

  /** Over every run: ids stay distinct and below the counter, the active tab is in the strip. */
  lemma {:induction false} RunKeepsInv(m: Model, ops: seq<Op>)
    requires Inv(m)
    ensures Inv(Run(m, ops)) && m.nextId <= Run(m, ops).nextId
    decreases |ops|
  {
    hide Inv, Apply;
    if ops == [] {
    } else {
      ApplyKeepsInv(m, ops[0]);
      ApplyHeld(m, ops[0]);
      RunKeepsInv(Apply(m, ops[0]), ops[1..]);
    }
  }

  lemma RunFromStart(closedLimit: nat, ops: seq<Op>)
    ensures Inv(Run(Initial(closedLimit), ops))
  {
    RunKeepsInv(Initial(closedLimit), ops);
  }

  /** The ids a run issues, in order. */
  function Issued(m: Model, ops: seq<Op>): seq<TabId>
    decreases |ops|
  {
    if ops == [] then []
    else
      var next := Apply(m, ops[0]);
      (if next.nextId == m.nextId then [] else [m.nextId]) + Issued(next, ops[1..])
  }

  /** No id is ever issued twice. */
  lemma {:induction false} IssuedIncrease(m: Model, ops: seq<Op>)
    ensures forall i :: 0 <= i < |Issued(m, ops)| ==> m.nextId <= Issued(m, ops)[i]
    ensures forall i, j :: 0 <= i < j < |Issued(m, ops)| ==> Issued(m, ops)[i] < Issued(m, ops)[j]
    decreases |ops|
  {
    hide Apply;
    if ops == [] {
    } else {
      ApplyHeld(m, ops[0]);
      IssuedIncrease(Apply(m, ops[0]), ops[1..]);
    }
  }

  lemma CloseStrip(m: Model, id: TabId)
    ensures multiset(Ids(CloseOf(m, id).tabs)) <= multiset(Ids(m.tabs))
  {
    hide Ids;
    var i := TabIndex(m.tabs, id);
    if i < |m.tabs| { IdsWithout(m.tabs, i); }
  }

  /** The strip gains no id but the next one. */
  lemma ApplyStrip(m: Model, op: Op, id: TabId)
    requires id < m.nextId
    ensures id in multiset(Ids(Apply(m, op).tabs)) ==> id in multiset(Ids(m.tabs))
  {
    hide Ids;
    match op
    case NewTab(uri, activate) =>
      AppendHeld(m.tabs, Tab(m.nextId, uri, "New tab", false, false, false, false, Live));
    case Close(closed) => CloseStrip(m, closed);
    case Reopen =>
      if m.closed != [] { AppendHeld(m.tabs, Restored(m.closed[|m.closed| - 1], m.nextId)); }
    case Duplicate(source) =>
      var i := TabIndex(m.tabs, source);
      if i < |m.tabs| {
        AppendHeld(m.tabs, Tab(m.nextId, m.tabs[i].uri, "New tab", false, false, false, false, Live));
      }
    case Move(moved, gap) => MoveHeld(m, moved, gap);
    case _ => SameIds(m, op);
  }

  /** A tab that is gone from the strip is never found under its id again, not even when it is reopened. */
  lemma {:induction false} ClosedIdsStayGone(m: Model, ops: seq<Op>, id: TabId)
    requires id < m.nextId && !Has(m, id)
    ensures !Has(Run(m, ops), id)
    decreases |ops|
  {
    hide Apply, Has, Ids;
    if ops == [] {
    } else {
      var next := Apply(m, ops[0]);
      ApplyHeld(m, ops[0]);
      ApplyStrip(m, ops[0], id);
      HasIsHeld(m, id);
      HasIsHeld(next, id);
      ClosedIdsStayGone(next, ops[1..], id);
    }
  }

  lemma HasIsHeld(m: Model, id: TabId)
    ensures Has(m, id) <==> id in Ids(m.tabs)
  {
    if Has(m, id) {
      assert Ids(m.tabs)[TabIndex(m.tabs, id)] == id;
    }
  }

  // ----- New tabs -----

  /**
   * A new tab comes in last, under the next id, at the given address and otherwise blank. It
   * becomes active exactly when that is asked for.
   */
  lemma NewTabEffect(m: Model, uri: Bytes, activate: bool)
    ensures var r, n := NewTabOf(m, uri, activate), |m.tabs|;
            && |r.tabs| == n + 1 && r.tabs[..n] == m.tabs
            && r.tabs[n].id == m.nextId && r.tabs[n].uri == uri && r.tabs[n].title == "New tab"
            && !r.tabs[n].loading && !r.tabs[n].discarded && !r.tabs[n].privateMode && !r.tabs[n].audible
            && r.tabs[n].lifecycle == Live
            && (activate ==> r.active == Some(m.nextId)) && (!activate ==> r.active == m.active)
            && r.nextId == m.nextId + 1 && r.closed == m.closed && r.focus == m.focus
  {
  }

  /** A duplicate comes in last at the address of its original, and becomes active; nothing else changes. */
  lemma DuplicateEffect(m: Model, id: TabId)
    requires Has(m, id)
    ensures var r, n := DuplicateOf(m, id), |m.tabs|;
            && |r.tabs| == n + 1 && r.tabs[..n] == m.tabs
            && r.tabs[n].id == m.nextId && r.tabs[n].uri == m.tabs[TabIndex(m.tabs, id)].uri
            && r.tabs[n].title == "New tab" && !r.tabs[n].loading && !r.tabs[n].discarded
            && r.active == Some(m.nextId) && r.nextId == m.nextId + 1 && r.closed == m.closed && r.focus == m.focus
  {
    hide TabIndex;
    NewTabEffect(m, m.tabs[TabIndex(m.tabs, id)].uri, true);
  }

  /** An id that is not in the strip, and a gap beyond its end, change nothing. */
  lemma AbsentChangesNothing(m: Model, id: TabId, gap: nat)
    ensures !Has(m, id) ==>
              ActivateOf(m, id) == m && CloseOf(m, id) == m && DuplicateOf(m, id) == m && MoveOf(m, id, gap) == m
    ensures gap > |m.tabs| ==> MoveOf(m, id, gap) == m
  {
    hide TabIndex;
  }

  // ----- Closing -----

  /**
   * A close takes out one tab and nothing else; when that was the active tab, its right
   * neighbour becomes active, or its left one at the right end, or none in an emptied strip.
   */
  lemma CloseEffect(m: Model, id: TabId)
    requires Has(m, id)
    ensures var i, n, r := TabIndex(m.tabs, id), |m.tabs|, CloseOf(m, id);
            && |r.tabs| == n - 1
            && (forall j :: 0 <= j < n - 1 ==> r.tabs[j] == m.tabs[if j < i then j else j + 1])
            && r.active == (if m.active != Some(id) then m.active
                            else if i + 1 < n then Some(m.tabs[i + 1].id)
                            else if i > 0 then Some(m.tabs[i - 1].id)
                            else None)
            && r.focus == m.focus && r.nextId == m.nextId
  {
    hide TabIndex, Push;
  }

  /** Activating makes a present tab active and resident, gives the page the focus, and changes nothing else. */
  lemma ActivateEffect(m: Model, id: TabId)
    requires Has(m, id)
    ensures var i, r := TabIndex(m.tabs, id), ActivateOf(m, id);
            && |r.tabs| == |m.tabs| && r.tabs[i] == m.tabs[i].(discarded := false)
            && (forall j :: 0 <= j < |m.tabs| && j != i ==> r.tabs[j] == m.tabs[j])
            && r == m.(tabs := r.tabs, active := Some(id), focus := Page)
            && Resident(r.tabs) == Resident(m.tabs) + if m.tabs[i].discarded then 1 else 0
  {
    hide TabIndex;
    ResidentUpdate(m.tabs, TabIndex(m.tabs, id));
  }

  lemma {:induction false} ResidentUpdate(tabs: seq<Tab>, i: nat)
    requires i < |tabs|
    ensures Resident(tabs[i := tabs[i].(discarded := false)]) == Resident(tabs) + if tabs[i].discarded then 1 else 0
  {
    var n := |tabs| - 1;
    var all := tabs[i := tabs[i].(discarded := false)];
    if i == n {
      assert all[..n] == tabs[..n];
    } else {
      assert all[..n] == tabs[..n][i := tabs[i].(discarded := false)] && all[n] == tabs[n];
      ResidentUpdate(tabs[..n], i);
    }
  }

  // ----- Discarding -----

  lemma {:induction false} DiscardCounts(tabs: seq<Tab>, active: Option<TabId>, count: nat)
    ensures Resident(DiscardLeftmost(tabs, active, count)) == Resident(tabs) - Min(count, CountEligible(tabs, active))
  {
    if tabs == [] {
    } else {
      var n := |tabs| - 1;
      var all, init := DiscardLeftmost(tabs, active, count), DiscardLeftmost(tabs[..n], active, count);
      assert forall i :: 0 <= i < n ==> tabs[..n][..i] == tabs[..i];
      assert all[..n] == init;
      DiscardCounts(tabs[..n], active, count);
    }
  }

  /** The resident tabs are those that are not discarded, one by one. */
  lemma {:induction false} ResidentIsCount(tabs: seq<Tab>)
    ensures Resident(tabs) == |set i | 0 <= i < |tabs| && !tabs[i].discarded|
  {
    var all := set i | 0 <= i < |tabs| && !tabs[i].discarded;
    if tabs == [] {
      assert all == {};
    } else {
      var n := |tabs| - 1;
      var init := set i | 0 <= i < n && !tabs[..n][i].discarded;
      ResidentIsCount(tabs[..n]);
      assert all == if tabs[n].discarded then init else init + {n};
    }
  }

  /** May be discarded: not the active one, not loading, and not discarded. */
  predicate MayGo(m: Model, i: nat)
    requires i < |m.tabs|
  {
    var tab := m.tabs[i];
    m.active != Some(tab.id) && !tab.loading && !tab.discarded
  }

  lemma {:induction false} CountAll(tabs: seq<Tab>, active: Option<TabId>, i: nat)
    requires i < |tabs| && Eligible(tabs[i], active)
    ensures CountEligible(tabs[..i], active) < CountEligible(tabs, active)
  {
    assert tabs[..i + 1][..i] == tabs[..i];
    CountMonotone(tabs, active, i + 1, |tabs|);
    assert tabs[..|tabs|] == tabs;
  }

  /**
   * The strip afterwards. Tabs change only by being discarded, and only those that are neither
   * active nor loading; the ones that go stand to the left of all that could have gone and
   * stayed. Within the limit nothing goes. Above it tabs go until the limit is met, and no
   * further, or until none is left that may go.
   */
  lemma DiscardEffect(m: Model, limit: nat)
    ensures var r, resident := DiscardOf(m, limit), Resident(m.tabs);
            && r == m.(tabs := r.tabs) && |r.tabs| == |m.tabs|
            && (forall i :: 0 <= i < |m.tabs| && r.tabs[i] != m.tabs[i] ==>
                  MayGo(m, i) && r.tabs[i] == m.tabs[i].(discarded := true))
            && (forall i, j :: 0 <= i < |m.tabs| && 0 <= j < |m.tabs| && r.tabs[i] != m.tabs[i] ==>
                  MayGo(m, j) && r.tabs[j] == m.tabs[j] ==> i < j)
            && (resident <= limit ==> r == m)
            && (resident > limit ==> Resident(r.tabs) >= limit)
            && (Resident(r.tabs) > limit ==>
                  forall i :: 0 <= i < |m.tabs| && MayGo(m, i) ==> r.tabs[i] != m.tabs[i])
            && resident - Resident(r.tabs) == Min(Excess(resident, limit), CountEligible(m.tabs, m.active))
  {
    hide CountEligible, Resident;
    var excess := Excess(Resident(m.tabs), limit);
    DiscardCounts(m.tabs, m.active, excess);
    var r := DiscardOf(m, limit);
    forall i, j | 0 <= i < |m.tabs| && 0 <= j < |m.tabs| && r.tabs[i] != m.tabs[i] && MayGo(m, j)
                  && r.tabs[j] == m.tabs[j]
      ensures i < j
    {
      if j < i { CountMonotone(m.tabs, m.active, j, i); }
    }
    forall i | 0 <= i < |m.tabs| && MayGo(m, i)
      ensures CountEligible(m.tabs[..i], m.active) < CountEligible(m.tabs, m.active)
    {
      CountAll(m.tabs, m.active, i);
    }
  }

  // ----- Moving -----

  lemma TabIndexIs(tabs: seq<Tab>, i: nat)
    requires i < |tabs|
    requires forall j :: 0 <= j < i ==> tabs[j].id != tabs[i].id
    ensures TabIndex(tabs, tabs[i].id) == i
  {
  }

  ghost predicate Distinct(tabs: seq<Tab>) {
    forall i, j :: 0 <= i < j < |tabs| ==> tabs[i].id != tabs[j].id
  }

  lemma InvIsDistinct(m: Model)
    requires Inv(m)
    ensures Distinct(m.tabs)
  {
    forall i, j | 0 <= i < j < |m.tabs|
      ensures m.tabs[i].id != m.tabs[j].id
    {
      var s := Ids(m.tabs);
      WithoutBag(s, j);
      assert Without(s, j)[i] == s[i];
      assert s[i] in multiset(Without(s, j));
      assert multiset(s)[s[j]] >= 1 + multiset(Without(s, j))[s[j]];
      assert s[i] in Held(m) && s[j] in Held(m);
    }
  }

  /** The tab lands in the gap, and nothing else about the strip or the model changes. */
  lemma MoveLands(m: Model, id: TabId, gap: nat)
    requires Inv(m) && Has(m, id) && gap <= |m.tabs|
    ensures var i, r := TabIndex(m.tabs, id), MoveOf(m, id, gap);
            var d := TabIndex(r.tabs, id);
            && d == (if gap > i then gap - 1 else gap) < |r.tabs| == |m.tabs|
            && r.tabs[d] == m.tabs[i]
            && Without(r.tabs, d) == Without(m.tabs, i)
            && r == m.(tabs := r.tabs)
  {
    InvIsDistinct(m);
    hide Inv, TabIndex;
    var i := TabIndex(m.tabs, id);
    TakeOut(Without(m.tabs, i), Landing(i, gap), m.tabs[i]);
    LandsAt(m.tabs, i, Landing(i, gap));
  }

  /** After the move the tab is found where it landed. */
  lemma LandsAt(tabs: seq<Tab>, i: nat, d: nat)
    requires Distinct(tabs) && i < |tabs| && d < |tabs|
    ensures TabIndex(WithAt(Without(tabs, i), d, tabs[i]), tabs[i].id) == d
  {
    var rest := Without(tabs, i);
    var moved := WithAt(rest, d, tabs[i]);
    assert forall j :: 0 <= j < |rest| ==> rest[j] == tabs[if j < i then j else j + 1];
    assert forall j :: 0 <= j < d ==> moved[j] == rest[j];
    hide TabIndex;
    TabIndexIs(moved, d);
  }

  /** A second move puts everything back. */
  lemma MoveIsUndone(m: Model, id: TabId, gap: nat)
    requires Inv(m) && Has(m, id) && gap <= |m.tabs|
    ensures var i, r := TabIndex(m.tabs, id), MoveOf(m, id, gap);
            MoveOf(r, id, if i > TabIndex(r.tabs, id) then i + 1 else i) == m
  {
    hide Inv, TabIndex, Without;
    var i, r := TabIndex(m.tabs, id), MoveOf(m, id, gap);
    MoveLands(m, id, gap);
    PutBack(m.tabs, i);
  }

  function RunMoves(m: Model, moves: seq<(TabId, nat)>): Model
    decreases |moves|
  {
    if moves == [] then m else RunMoves(MoveOf(m, moves[0].0, moves[0].1), moves[1..])
  }

  /** Every order of the strip can be reached by moves: put the k-th wanted tab into the k-th gap. */
  lemma {:induction false} EveryOrderIsReachable(m: Model, target: seq<Tab>, k: nat) returns (moves: seq<(TabId, nat)>)
    requires Inv(m) && multiset(target) == multiset(m.tabs)
    requires k <= |target| && k <= |m.tabs| && m.tabs[..k] == target[..k]
    ensures RunMoves(m, moves) == m.(tabs := target)
    decreases |target| - k
  {
    hide Inv, MoveOf;
    assert |target| == |multiset(target)| == |multiset(m.tabs)| == |m.tabs|;
    if k == |target| {
      assert m.tabs == target;
      moves := [];
    } else {
      var id := target[k].id;
      PlaceWanted(m, target, k);
      ApplyKeepsInv(m, Move(id, k));
      var rest := EveryOrderIsReachable(MoveOf(m, id, k), target, k + 1);
      moves := [(id, k)] + rest;
      assert moves[1..] == rest;
    }
  }

  lemma PlaceWanted(m: Model, target: seq<Tab>, k: nat)
    requires Inv(m) && multiset(target) == multiset(m.tabs)
    requires k < |target| && k < |m.tabs| && m.tabs[..k] == target[..k]
    ensures var next := MoveOf(m, target[k].id, k);
            && next == m.(tabs := next.tabs)
            && multiset(next.tabs) == multiset(m.tabs)
            && k < |next.tabs| && next.tabs[..k + 1] == target[..k + 1]
  {
    var j := WantedIsLater(m.tabs, target, k);
    var id := target[k].id;
    InvIsDistinct(m);
    TabIndexIs(m.tabs, j);
    MoveKeepsBag(m, id, k);
    var next := MoveOf(m, id, k);
    assert next.tabs == WithAt(Without(m.tabs, j), k, target[k]);
    assert Without(m.tabs, j)[..k] == m.tabs[..k];
    assert next.tabs[..k + 1] == m.tabs[..k] + [target[k]] == target[..k + 1];
  }

  lemma MoveKeepsBag(m: Model, id: TabId, gap: nat)
    ensures multiset(MoveOf(m, id, gap).tabs) == multiset(m.tabs)
  {
    var i := TabIndex(m.tabs, id);
    if i < |m.tabs| && gap <= |m.tabs| {
      WithoutBag(m.tabs, i);
      WithAtBag(Without(m.tabs, i), Landing(i, gap), m.tabs[i]);
    }
  }

  lemma TailBag<T>(s: seq<T>, k: nat)
    requires k <= |s|
    ensures multiset(s[k..]) == multiset(s) - multiset(s[..k])
  {
    assert s == s[..k] + s[k..];
  }

  lemma WantedIsLater<T>(s: seq<T>, target: seq<T>, k: nat) returns (j: nat)
    requires multiset(target) == multiset(s) && k < |target| && k <= |s| && s[..k] == target[..k]
    ensures k <= j < |s| && s[j] == target[k]
  {
    TailBag(s, k);
    TailBag(target, k);
    assert target[k] == target[k..][0];
    assert target[k] in multiset(target[k..]);
    assert target[k] in s[k..];
    var i :| 0 <= i < |s[k..]| && s[k..][i] == target[k];
    j := k + i;
  }

  // ----- Recently closed -----

  function CloseAll(m: Model, ids: seq<TabId>): Model
    decreases |ids|
  {
    if ids == [] then m else CloseAll(CloseOf(m, ids[0]), ids[1..])
  }

  function ReopenAll(m: Model, n: nat): Model {
    if n == 0 then m else ReopenOf(ReopenAll(m, n - 1))
  }

  /** Tabs of the strip, each under its own id. */
  ghost predicate Present(m: Model, ids: seq<TabId>) {
    (forall i :: 0 <= i < |ids| ==> Has(m, ids[i])) && (forall i, j :: 0 <= i < j < |ids| ==> ids[i] != ids[j])
  }

  function Snapshot(m: Model, id: TabId): Tab
    requires Has(m, id)
  {
    m.tabs[TabIndex(m.tabs, id)].(lifecycle := Closed)
  }

  function Snapshots(m: Model, ids: seq<TabId>): (r: seq<Tab>)
    requires forall i :: 0 <= i < |ids| ==> Has(m, ids[i])
    ensures |r| == |ids|
  {
    seq(|ids|, i requires 0 <= i < |ids| => Snapshot(m, ids[i]))
  }

  function LastOf<T>(s: seq<T>, n: nat): seq<T> {
    if |s| <= n then s else s[|s| - n..]
  }

  lemma {:induction false} WithoutOther(tabs: seq<Tab>, i: nat, id: TabId)
    requires i < |tabs| && tabs[i].id != id && TabIndex(tabs, id) < |tabs|
    ensures var rest, j := Without(tabs, i), TabIndex(tabs, id);
            TabIndex(rest, id) == (if j < i then j else j - 1) < |rest| && rest[TabIndex(rest, id)] == tabs[j]
  {
    var rest, j := Without(tabs, i), TabIndex(tabs, id);
    var k := if j < i then j else j - 1;
    assert rest[k] == tabs[j];
    assert forall x :: 0 <= x < k ==> rest[x].id != id;
    TabIndexIs(rest, k);
  }

  lemma CloseKeepsOthers(m: Model, id: TabId, ids: seq<TabId>)
    requires Present(m, [id] + ids)
    ensures Present(CloseOf(m, id), ids) && Snapshots(CloseOf(m, id), ids) == Snapshots(m, ids)
  {
    hide TabIndex, Push;
    var all := [id] + ids;
    assert Has(m, all[0]);
    forall i | 0 <= i < |ids|
      ensures Has(m, ids[i]) && Has(CloseOf(m, id), ids[i]) && Snapshot(CloseOf(m, id), ids[i]) == Snapshot(m, ids[i])
    {
      assert Has(m, all[i + 1]) && all[0] != all[i + 1];
      WithoutOther(m.tabs, TabIndex(m.tabs, id), ids[i]);
    }
    forall i, j | 0 <= i < j < |ids|
      ensures ids[i] != ids[j]
    {
      assert all[i + 1] == ids[i] && all[j + 1] == ids[j];
    }
  }

  lemma LastOfLast<T>(a: seq<T>, b: seq<T>, n: nat)
    ensures LastOf(LastOf(a, n) + b, n) == LastOf(a + b, n)
  {
  }

  lemma CloseStacksOne(m: Model, id: TabId)
    requires Has(m, id) && |m.closed| <= m.closedLimit
    ensures var r := CloseOf(m, id);
            && r.closed == LastOf(m.closed + [Snapshot(m, id)], m.closedLimit)
            && r.closedLimit == m.closedLimit && |r.closed| <= m.closedLimit
  {
    hide TabIndex;
  }

  /** The closed stack keeps the most recent closes, oldest first, up to its limit. */
  lemma {:induction false} CloseAllStacks(m: Model, ids: seq<TabId>)
    requires Present(m, ids) && |m.closed| <= m.closedLimit
    ensures CloseAll(m, ids).closed == LastOf(m.closed + Snapshots(m, ids), m.closedLimit)
    decreases |ids|
  {
    hide Has, CloseOf, Snapshot;
    if ids == [] {
      assert m.closed + Snapshots(m, ids) == m.closed;
    } else {
      var id, rest := ids[0], ids[1..];
      assert ids == [id] + rest;
      CloseKeepsOthers(m, id, rest);
      CloseStacksOne(m, id);
      SnapshotsCons(m, id, rest);
      hide Snapshots, Present, LastOf;
      var next, shot := CloseOf(m, id), Snapshot(m, id);
      CloseAllStacks(next, rest);
      LastOfLast(m.closed + [shot], Snapshots(m, rest), m.closedLimit);
      assert m.closed + [shot] + Snapshots(m, rest) == m.closed + ([shot] + Snapshots(m, rest));
    }
  }

  lemma SnapshotsCons(m: Model, id: TabId, rest: seq<TabId>)
    requires forall i :: 0 <= i < |[id] + rest| ==> Has(m, ([id] + rest)[i])
    ensures Has(m, id) && (forall i :: 0 <= i < |rest| ==> Has(m, rest[i]))
    ensures Snapshots(m, [id] + rest) == [Snapshot(m, id)] + Snapshots(m, rest)
  {
    hide Has, Snapshot;
    assert Has(m, ([id] + rest)[0]);
    assert forall i :: 0 <= i < |rest| ==> ([id] + rest)[i + 1] == rest[i];
  }

  /** What the first `n` reopens append: the stack from its top, under fresh ids. */
  function Reopened(m: Model, n: nat): (r: seq<Tab>)
    requires n <= |m.closed|
    ensures |r| == n
  {
    seq(n, i requires 0 <= i < n => Restored(m.closed[|m.closed| - 1 - i], m.nextId + i))
  }

  /** The state after `k` reopens. */
  function AfterReopens(m: Model, k: nat): Model
    requires k <= |m.closed|
  {
    m.(nextId := m.nextId + k,
       tabs := m.tabs + Reopened(m, k),
       closed := m.closed[..|m.closed| - k],
       active := if k == 0 then m.active else Some(m.nextId + k - 1))
  }

  lemma {:induction false} ReopenAllUnstacks(m: Model, n: nat)
    ensures ReopenAll(m, n) == AfterReopens(m, Min(n, |m.closed|))
  {
    if n == 0 {
      assert m.tabs + Reopened(m, 0) == m.tabs;
    } else {
      ReopenAllUnstacks(m, n - 1);
      if n <= |m.closed| { ReopenOne(m, n - 1); }
    }
  }

  lemma ReopenOne(m: Model, k: nat)
    requires k < |m.closed|
    ensures ReopenOf(AfterReopens(m, k)) == AfterReopens(m, k + 1)
  {
    hide Restored;
    var r := Reopened(m, k + 1);
    assert r == Reopened(m, k) + [r[k]];
    assert m.tabs + r == m.tabs + Reopened(m, k) + [r[k]];
    var left := m.closed[..|m.closed| - k];
    assert left[..|left| - 1] == m.closed[..|m.closed| - (k + 1)];
  }

  /** A tab that came back: `was` is how it stood in the strip. */
  predicate ComesBack(was: Tab, now: Tab, id: TabId) {
    && now.uri == was.uri && now.title == was.title
    && now.discarded == was.discarded && now.privateMode == was.privateMode && now.audible == was.audible
    && now.id == id && !now.loading && now.lifecycle == Live
  }

  /** The tabs called `ids` came back, the last of them first, under the ids from `first` on. */
  predicate AllComeBack(m: Model, ids: seq<TabId>, back: seq<Tab>, first: TabId)
    requires |back| <= |ids| && forall i :: 0 <= i < |ids| ==> Has(m, ids[i])
  {
    forall i :: 0 <= i < |back| ==>
      var id := ids[|ids| - 1 - i];
      Has(m, id) && ComesBack(m.tabs[TabIndex(m.tabs, id)], back[i], first + i)
  }

  /** The last `k` of the tabs called `ids`, latest first, restored under fresh ids. */
  function Undone(m: Model, ids: seq<TabId>, k: nat, first: TabId): (r: seq<Tab>)
    requires k <= |ids| && forall i :: 0 <= i < |ids| ==> Has(m, ids[i])
    ensures |r| == k
  {
    seq(k, i requires 0 <= i < k => Restored(Snapshot(m, ids[|ids| - 1 - i]), first + i))
  }

  /**
   * After closing n tabs with an empty stack, exactly min(n, limit) reopens succeed. The i-th
   * appends the tab closed i-th from last, with the address, the title and the other marks it
   * had in the strip but for the loading flag, live, under a fresh id, and makes it active.
   */
  lemma RecentlyClosedIsLifo(m: Model, ids: seq<TabId>, n: nat)
    requires Present(m, ids) && m.closed == []
    ensures var m1, k := CloseAll(m, ids), Min(n, Min(|ids|, m.closedLimit));
            var r := ReopenAll(m1, n);
            && m1.nextId == m.nextId
            && |r.tabs| == |m1.tabs| + k && m1.tabs <= r.tabs
            && AllComeBack(m, ids, r.tabs[|m1.tabs|..], m.nextId)
            && r.nextId == m.nextId + k
            && r.active == (if k == 0 then m1.active else Some(m.nextId + k - 1))
            && (n >= Min(|ids|, m.closedLimit) ==> r.closed == [])
  {
    hide CloseAll, ReopenAll, Snapshots, Reopened, Undone, Has, AllComeBack;
    var m1, k := CloseAll(m, ids), Min(n, Min(|ids|, m.closedLimit));
    StackAfterCloses(m, ids);
    hide LastOf, Present;
    ReopenAllUnstacks(m1, n);
    ReopenedIsUndone(m, ids, m1, k);
    UndoneComesBack(m, ids, k);
    assert (m1.tabs + Undone(m, ids, k, m.nextId))[|m1.tabs|..] == Undone(m, ids, k, m.nextId);
  }

  lemma UndoneComesBack(m: Model, ids: seq<TabId>, k: nat)
    requires k <= |ids| && forall i :: 0 <= i < |ids| ==> Has(m, ids[i])
    ensures AllComeBack(m, ids, Undone(m, ids, k, m.nextId), m.nextId)
  {
    hide TabIndex, Has;
    var back := Undone(m, ids, k, m.nextId);
    forall i | 0 <= i < k
      ensures var id := ids[|ids| - 1 - i];
              Has(m, id) && ComesBack(Snapshot(m, id), back[i], m.nextId + i)
    {
      var j := |ids| - 1 - i;
      assert Has(m, ids[j]);
      assert back[i] == Restored(Snapshot(m, ids[j]), m.nextId + i);
    }
  }

  /** One reopen: the tab closed last comes back at the end of the strip, active; the focus stays. */
  lemma ReopenEffect(m: Model)
    ensures m.closed == [] ==> ReopenOf(m) == m
    ensures m.closed != [] ==>
              var r, n, last := ReopenOf(m), |m.tabs|, |m.closed| - 1;
              && |r.tabs| == n + 1 && r.tabs[..n] == m.tabs && ComesBack(m.closed[last], r.tabs[n], m.nextId)
              && r.closed == m.closed[..last] && r.active == Some(m.nextId) && r.nextId == m.nextId + 1
              && r.focus == m.focus && r.closedLimit == m.closedLimit
  {
  }

  lemma StackAfterCloses(m: Model, ids: seq<TabId>)
    requires Present(m, ids) && m.closed == []
    ensures var m1 := CloseAll(m, ids);
            && m1.closed == LastOf(Snapshots(m, ids), m.closedLimit)
            && |m1.closed| == Min(|ids|, m.closedLimit)
            && m1.nextId == m.nextId
  {
    hide CloseAll, Has;
    CloseAllStacks(m, ids);
    CloseAllKeeps(m, ids);
    assert [] + Snapshots(m, ids) == Snapshots(m, ids);
  }

  lemma ReopenedIsUndone(m: Model, ids: seq<TabId>, m1: Model, k: nat)
    requires forall i :: 0 <= i < |ids| ==> Has(m, ids[i])
    requires m1.closed == LastOf(Snapshots(m, ids), m.closedLimit) && k <= |m1.closed|
    ensures Reopened(m1, k) == Undone(m, ids, k, m1.nextId)
  {
    hide Has, Snapshot;
    var s := Snapshots(m, ids);
    forall i | 0 <= i < k
      ensures Reopened(m1, k)[i] == Undone(m, ids, k, m1.nextId)[i]
    {
      assert m1.closed[|m1.closed| - 1 - i] == s[|s| - 1 - i];
    }
  }

  lemma {:induction false} CloseAllKeeps(m: Model, ids: seq<TabId>)
    ensures CloseAll(m, ids).closedLimit == m.closedLimit && CloseAll(m, ids).nextId == m.nextId
    decreases |ids|
  {
    if ids == [] {
    } else {
      CloseAllKeeps(CloseOf(m, ids[0]), ids[1..]);
    }
  }
}
