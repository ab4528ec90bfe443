/**
 * The agent event ring and the readers that poll it by cursor (src/agent_rpc.cpp:148-153,
 * 200; benchmarks/agent_rpc.cpp:10). The ring's lock makes each operation one atomic step.
 */
module EventLog {
  import opened Lists
  import opened Text

  datatype AgentEvent = AgentEvent(sequence: nat, kind: Bytes, payload: Bytes)

  // ----- What the ring means: an unbounded history with a low-water mark -----

  /**
   * Everything ever published, the number of events at its start that are gone, and the
   * length of the history at the last clear.
   */
  datatype Log = Log(capacity: nat, history: seq<AgentEvent>, low: nat, cleared: nat)

  ghost predicate Numbered(history: seq<AgentEvent>) {
    forall i :: 0 <= i < |history| ==> history[i].sequence == i + 1
  }

  ghost predicate ValidLog(l: Log) {
    && 1 <= l.capacity
    && Numbered(l.history)
    && l.cleared <= l.low <= |l.history|
    && |l.history| - l.low == Min(l.capacity, |l.history| - l.cleared)
  }

  function Published(l: Log, kind: Bytes, payload: Bytes): Log {
    l.(history := l.history + [AgentEvent(|l.history| + 1, kind, payload)],
       low := if |l.history| >= l.low + l.capacity then l.low + 1 else l.low)
  }

  lemma PublishedIsValid(l: Log, kind: Bytes, payload: Bytes)
    requires ValidLog(l)
    ensures ValidLog(Published(l, kind, payload))
  {
    var r := Published(l, kind, payload);
    assert forall i :: 0 <= i < |l.history| ==> r.history[i] == l.history[i];
  }

  function Cleared(l: Log): Log {
    l.(low := |l.history|, cleared := |l.history|)
  }

  /** How many events one poll can return: a limit of zero still lets one through. */
  function Batch(limit: nat): nat { Max(1, limit) }

  /** The first events above both the cursor and the low-water mark. */
  function SinceOf(l: Log, after: nat, limit: nat): (r: seq<AgentEvent>)
    requires l.low <= |l.history|
  {
    var start := Max(after, l.low);
    if start >= |l.history| then [] else l.history[start..Min(|l.history|, start + Batch(limit))]
  }

  // ----- The ring -----

  class AgentEventLog {
    var events: seq<AgentEvent>
    const capacity: nat
    var next: nat
    var dropped: nat
    ghost var history: seq<AgentEvent>
    ghost var cleared: nat

    ghost predicate Valid()
      reads this
    {
      && ValidLog(Contents())
      && |events| <= |history|
      && events == history[|history| - |events|..]
      && next == |history| + 1
      && |history| == cleared + dropped + |events|
    }

    ghost function Contents(): Log
      reads this
    {
      Log(capacity, history, if |events| <= |history| then |history| - |events| else 0, cleared)
    }

    constructor (limit: nat)
      ensures Valid() && Contents() == Log(Max(1, limit), [], 0, 0)
    {
      events, next, dropped := [], 1, 0;
      capacity := Max(1, limit);
      history, cleared := [], 0;
    }

    method Publish(kind: Bytes, payload: Bytes) returns (sequence: nat)
      requires Valid()
      modifies this
      ensures Valid() && Contents() == Published(old(Contents()), kind, payload)
      ensures sequence == |history|
    {
      hide ValidLog;
      PublishedIsValid(Contents(), kind, payload);
      sequence := next;
      next := next + 1;
      ghost var low := |history| - |events|;
      if |events| >= capacity {
        events := events[1..];
        dropped := dropped + 1;
        low := low + 1;
      }
      assert events == history[low..];
      events := events + [AgentEvent(sequence, kind, payload)];
      history := history + [AgentEvent(sequence, kind, payload)];
      assert events == history[low..];
    }

    method Since(after: nat, limit: nat) returns (out: seq<AgentEvent>)
      requires Valid()
      ensures out == SinceOf(Contents(), after, limit)
    {
      out := [];
      ghost var base: nat := |history| - |events|;
      ghost var start: nat := Max(after, base);
      for i := 0 to |events|
        invariant base + i <= start ==> out == []
        invariant start < base + i ==> out == history[start..base + i]
        invariant |out| < Batch(limit)
      {
        assert events[i] == history[base + i] && events[i].sequence == base + i + 1;
        if events[i].sequence > after {
          assert start <= base + i;
          out := out + [events[i]];
          assert out == history[start..base + i + 1];
          if |out| >= limit { return; }
        }
      }
    }

    method Latest() returns (sequence: nat)
      requires Valid()
      ensures sequence == |Contents().history|
    {
      sequence := next - 1;
    }

    /** Evictions since the last clear. */
    method Dropped() returns (n: nat)
      requires Valid()
      ensures n == Contents().low - Contents().cleared
    {
      n := dropped;
    }

    method Clear()
      requires Valid()
      modifies this
      ensures Valid() && Contents() == Cleared(old(Contents()))
    {
      events := [];
      dropped := 0;
      cleared := |history|;
    }
  }

  // ----- Readers -----

  /** A reader: its cursor and everything it has been handed, in order. */
  datatype Reader = Reader(cursor: nat, delivered: seq<AgentEvent>)

  datatype World = World(log: Log, reader: Reader)

  /**
   * What can happen, in any order: a publish, a clear, a poll by the reader that moves its
   * cursor to the last event it was handed, or a poll by `vant agent watch`, which moves it
   * to the latest sequence. Polls by other readers change nothing.
   */
  datatype Step =
    | Publish(kind: Bytes, payload: Bytes)
    | Clear
    | Poll(limit: nat)
    | Watch(limit: nat)

  ghost predicate ValidWorld(w: World) {
    ValidLog(w.log) && w.reader.cursor <= |w.log.history|
  }

  function PollReader(l: Log, r: Reader, limit: nat): Reader
    requires l.low <= |l.history|
  {
    var batch := SinceOf(l, r.cursor, limit);
    Reader(if batch == [] then r.cursor else batch[|batch| - 1].sequence, r.delivered + batch)
  }

  function WatchReader(l: Log, r: Reader, limit: nat): Reader
    requires l.low <= |l.history|
  {
    Reader(|l.history|, r.delivered + SinceOf(l, r.cursor, limit))
  }

  function Next(w: World, s: Step): World
    requires w.log.low <= |w.log.history|
  {
    match s
    case Publish(kind, payload) => w.(log := Published(w.log, kind, payload))
    case Clear => w.(log := Cleared(w.log))
    case Poll(limit) => w.(reader := PollReader(w.log, w.reader, limit))
    case Watch(limit) => w.(reader := WatchReader(w.log, w.reader, limit))
  }

  /** The state after a run from an empty ring and a fresh reader. */
  function RunOf(capacity: nat, steps: seq<Step>): (w: World)
    ensures w.log.low <= |w.log.history|
  {
    if steps == [] then World(Log(Max(1, capacity), [], 0, 0), Reader(0, []))
    else Next(RunOf(capacity, steps[..|steps| - 1]), steps[|steps| - 1])
  }

  /** The conforming reader of the benchmark, on a ring. */
  class CursorReader {
    var cursor: nat
    ghost var delivered: seq<AgentEvent>

    method Poll(log: AgentEventLog, limit: nat) returns (batch: seq<AgentEvent>)
      requires log.Valid()
      modifies this
      ensures Reader(cursor, delivered) == PollReader(log.Contents(), old(Reader(cursor, delivered)), limit)
      ensures delivered == old(delivered) + batch
    {
      batch := log.Since(cursor, limit);
      if batch != [] { cursor := batch[|batch| - 1].sequence; }
      delivered := delivered + batch;
    }
  }

  lemma NextIsValid(w: World, s: Step)
    requires ValidWorld(w)
    ensures ValidWorld(Next(w, s)) && w.log.history <= Next(w, s).log.history
    ensures w.reader.cursor <= Next(w, s).reader.cursor
  {
  }

  lemma {:induction false} RunIsValid(capacity: nat, steps: seq<Step>)
    ensures ValidWorld(RunOf(capacity, steps))
  {
    if steps == [] {
    } else {
      RunIsValid(capacity, steps[..|steps| - 1]);
      NextIsValid(RunOf(capacity, steps[..|steps| - 1]), steps[|steps| - 1]);
    }
  }

  // ----- In order, at most once, and as published -----

  ghost predicate InOrder(w: World) {
    && (forall i, j :: 0 <= i < j < |w.reader.delivered| ==>
          w.reader.delivered[i].sequence < w.reader.delivered[j].sequence)
    && (forall i :: 0 <= i < |w.reader.delivered| ==>
          w.reader.delivered[i].sequence <= w.reader.cursor && w.reader.delivered[i] in w.log.history)
  }

  lemma NextIsInOrder(w: World, s: Step)
    requires ValidWorld(w) && InOrder(w)
    ensures InOrder(Next(w, s))
  {
    if s.Poll? || s.Watch? {
      BatchIsInOrder(w.log, w.reader.cursor, s.limit);
      hide SinceOf, ValidLog;
      var batch := SinceOf(w.log, w.reader.cursor, s.limit);
      assert Next(w, s).reader.delivered == w.reader.delivered + batch;
    } else {
      assert w.log.history <= Next(w, s).log.history;
    }
  }

  /** One batch: increasing, above the cursor, up to the latest, and from the history. */
  lemma BatchIsInOrder(l: Log, after: nat, limit: nat)
    requires ValidLog(l)
    ensures var batch := SinceOf(l, after, limit);
            && (forall i :: 0 <= i < |batch| ==>
                  after < batch[i].sequence <= |l.history| && batch[i] in l.history)
            && (forall i, j :: 0 <= i < j < |batch| ==> batch[i].sequence < batch[j].sequence)
  {
    var batch, start := SinceOf(l, after, limit), Max(after, l.low);
    assert forall i :: 0 <= i < |batch| ==> batch[i] == l.history[start + i];
  }

  /** The type and payload of every publish among the steps, in order. */
  function Pairs(steps: seq<Step>): seq<(Bytes, Bytes)> {
    if steps == [] then []
    else
      var before, last := Pairs(steps[..|steps| - 1]), steps[|steps| - 1];
      if last.Publish? then before + [(last.kind, last.payload)] else before
  }

  /** How many publishes come before the last clear. */
  function PublishedBeforeClear(steps: seq<Step>): nat {
    if steps == [] then 0
    else if steps[|steps| - 1].Clear? then |Pairs(steps)|
    else PublishedBeforeClear(steps[..|steps| - 1])
  }

  /**
   * Over every run the log is what the steps say: the q-th event carries sequence q and the
   * type and payload of the q-th publish, and what the ring has let go of is what came before
   * the last clear or lies further back than its capacity.
   */
  lemma {:induction false} LogOfRun(capacity: nat, steps: seq<Step>)
    ensures var l, pairs := RunOf(capacity, steps).log, Pairs(steps);
            && |l.history| == |pairs|
            && (forall i :: 0 <= i < |pairs| ==> l.history[i] == AgentEvent(i + 1, pairs[i].0, pairs[i].1))
            && l.capacity == Max(1, capacity)
            && l.cleared == PublishedBeforeClear(steps)
            && l.low == Max(PublishedBeforeClear(steps), |pairs| - Max(1, capacity))
  {
    if steps == [] {
    } else {
      var before := steps[..|steps| - 1];
      LogOfRun(capacity, before);
      RunIsValid(capacity, before);
      RunIsValid(capacity, steps);
    }
  }

  lemma {:induction false} HandedInOrder(capacity: nat, steps: seq<Step>)
    ensures InOrder(RunOf(capacity, steps))
  {
    if steps == [] {
    } else {
      var before := steps[..|steps| - 1];
      HandedInOrder(capacity, before);
      RunIsValid(capacity, before);
      NextIsInOrder(RunOf(capacity, before), steps[|steps| - 1]);
    }
  }

  /**
   * Over every run: what a reader is handed is strictly increasing in sequence, and the event
   * of sequence q carries the type and payload of the q-th publish.
   */
  lemma DeliveredInOrder(capacity: nat, steps: seq<Step>)
    ensures var delivered, pairs := RunOf(capacity, steps).reader.delivered, Pairs(steps);
            && (forall i, j :: 0 <= i < j < |delivered| ==> delivered[i].sequence < delivered[j].sequence)
            && forall i :: 0 <= i < |delivered| ==>
                 var q := delivered[i].sequence;
                 && 1 <= q <= RunOf(capacity, steps).reader.cursor && q <= |pairs|
                 && delivered[i].kind == pairs[q - 1].0 && delivered[i].payload == pairs[q - 1].1
  {
    hide RunOf, Pairs;
    HandedInOrder(capacity, steps);
    LogOfRun(capacity, steps);
  }

  // ----- Nothing is skipped without a reason -----

  ghost predicate Has(events: seq<AgentEvent>, sequence: nat) {
    exists i :: 0 <= i < |events| && events[i].sequence == sequence
  }

  ghost predicate Delivered(w: World, sequence: nat) {
    Has(w.reader.delivered, sequence)
  }

  /**
   * Step `k` moved the cursor past `sequence` although that event was gone by then, evicted
   * or cleared, or although a watching reader had more pending than one poll returns.
   */
  ghost predicate LostAt(capacity: nat, steps: seq<Step>, k: nat, sequence: nat)
    requires k < |steps|
  {
    var w := RunOf(capacity, steps[..k]);
    && w.reader.cursor < sequence <= Next(w, steps[k]).reader.cursor
    && (sequence <= w.log.low ||
        (steps[k].Watch? && sequence > Max(w.reader.cursor, w.log.low) + Batch(steps[k].limit)))
  }

  ghost predicate Lost(capacity: nat, steps: seq<Step>, sequence: nat) {
    exists k :: 0 <= k < |steps| && LostAt(capacity, steps, k, sequence)
  }

  lemma HasConcat(a: seq<AgentEvent>, b: seq<AgentEvent>, sequence: nat)
    ensures Has(a + b, sequence) <==> Has(a, sequence) || Has(b, sequence)
  {
    var s := a + b;
    assert forall i :: 0 <= i < |a| ==> s[i] == a[i];
    assert forall i :: 0 <= i < |b| ==> s[|a| + i] == b[i];
    if Has(b, sequence) {
      var i :| 0 <= i < |b| && b[i].sequence == sequence;
      assert s[|a| + i].sequence == sequence;
    }
  }

  lemma HasRange(history: seq<AgentEvent>, from: nat, to: nat, sequence: nat)
    requires Numbered(history) && from <= to <= |history|
    ensures Has(history[from..to], sequence) <==> from < sequence <= to
  {
    if from < sequence <= to {
      assert history[from..to][sequence - from - 1].sequence == sequence;
    }
  }

  /**
   * A poll returns, of the events above both the cursor and the low-water mark, exactly the
   * first ones, up to its limit.
   */
  lemma SinceReturns(l: Log, after: nat, limit: nat, sequence: nat)
    requires ValidLog(l)
    ensures var start := Max(after, l.low);
            Has(SinceOf(l, after, limit), sequence) <==>
            start < sequence <= |l.history| && sequence <= start + if limit == 0 then 1 else limit
  {
    hide Has;
    var start: nat := Max(after, l.low);
    if start < |l.history| {
      HasRange(l.history, start, Min(|l.history|, start + Batch(limit)), sequence);
    } else {
      HasRange(l.history, 0, 0, sequence);
    }
  }

  lemma StepDelivers(w: World, s: Step, sequence: nat)
    requires ValidWorld(w) && InOrder(w)
    ensures w.reader.cursor < sequence <= Next(w, s).reader.cursor ==>
              (Delivered(Next(w, s), sequence) <==>
               !(sequence <= w.log.low || (s.Watch? && sequence > Max(w.reader.cursor, w.log.low) + Batch(s.limit))))
    ensures sequence <= w.reader.cursor ==> (Delivered(Next(w, s), sequence) <==> Delivered(w, sequence))
  {
    hide Has;
    if s.Poll? || s.Watch? {
      HasConcat(w.reader.delivered, SinceOf(w.log, w.reader.cursor, s.limit), sequence);
      HasNothingAbove(w, sequence);
      SinceReturns(w.log, w.reader.cursor, s.limit, sequence);
    }
  }

  lemma HasNothingAbove(w: World, sequence: nat)
    requires InOrder(w)
    ensures sequence > w.reader.cursor ==> !Has(w.reader.delivered, sequence)
  {
  }

  lemma GaplessDelivers(w: World, sequence: nat)
    requires ValidWorld(w) && 0 < sequence <= w.reader.cursor
    ensures Gapless(w) ==> Delivered(w, sequence)
  {
    HasRange(w.log.history, 0, w.reader.cursor, sequence);
    assert w.log.history[0..w.reader.cursor] == w.log.history[..w.reader.cursor];
  }

  lemma {:induction false} CursorMonotone(capacity: nat, steps: seq<Step>, k: nat)
    requires k <= |steps|
    ensures RunOf(capacity, steps[..k]).reader.cursor <= RunOf(capacity, steps).reader.cursor
  {
    if k == |steps| {
      assert steps[..k] == steps;
    } else {
      var before := steps[..|steps| - 1];
      assert before[..k] == steps[..k];
      CursorMonotone(capacity, before, k);
      RunIsValid(capacity, before);
      NextIsValid(RunOf(capacity, before), steps[|steps| - 1]);
    }
  }

  lemma LostAtBefore(capacity: nat, steps: seq<Step>, k: nat, sequence: nat)
    requires k < |steps| - 1
    ensures LostAt(capacity, steps[..|steps| - 1], k, sequence) == LostAt(capacity, steps, k, sequence)
  {
    hide RunOf, Next;
    assert steps[..|steps| - 1][..k] == steps[..k];
  }

  lemma LostBefore(capacity: nat, steps: seq<Step>, sequence: nat)
    requires steps != []
    ensures Lost(capacity, steps, sequence) <==>
            Lost(capacity, steps[..|steps| - 1], sequence) || LostAt(capacity, steps, |steps| - 1, sequence)
  {
    hide LostAt;
    var before := steps[..|steps| - 1];
    forall k | 0 <= k < |before|
      ensures LostAt(capacity, before, k, sequence) == LostAt(capacity, steps, k, sequence)
    {
      LostAtBefore(capacity, steps, k, sequence);
    }
  }

  lemma LostIsPassed(capacity: nat, steps: seq<Step>, sequence: nat)
    requires Lost(capacity, steps, sequence)
    ensures sequence <= RunOf(capacity, steps).reader.cursor
  {
    var k :| 0 <= k < |steps| && LostAt(capacity, steps, k, sequence);
    CursorMonotone(capacity, steps, k + 1);
    assert steps[..k + 1][..k] == steps[..k];
  }

  /**
   * Over every run, each event at or below the cursor was either delivered or lost in the
   * sense above, and never both.
   */
  lemma {:induction false} DeliveredOrLost(capacity: nat, steps: seq<Step>, sequence: nat)
    requires 0 < sequence <= RunOf(capacity, steps).reader.cursor
    ensures Delivered(RunOf(capacity, steps), sequence) <==> !Lost(capacity, steps, sequence)
  {
    hide Delivered;
    var before := steps[..|steps| - 1];
    var w := RunOf(capacity, before);
    RunIsValid(capacity, before);
    HandedInOrder(capacity, before);
    StepDelivers(w, steps[|steps| - 1], sequence);
    LostBefore(capacity, steps, sequence);
    if sequence <= w.reader.cursor {
      DeliveredOrLost(capacity, before, sequence);
    } else if Lost(capacity, before, sequence) {
      LostIsPassed(capacity, before, sequence);
    }
  }

  /** Two events and a watching poll for one: the second is lost, although the ring still holds it. */
  lemma WatchLoses(event: AgentEvent)
    ensures var steps := [Publish(event.kind, event.payload), Publish(event.kind, event.payload), Watch(1)];
            var w := RunOf(8, steps);
            w.log.low == 0 && w.reader.cursor == 2 && Lost(8, steps, 2) && !Delivered(w, 2)
  {
    hide Delivered, InOrder;
    var p := Publish(event.kind, event.payload);
    var steps := [p, p, Watch(1)];
    TwoSteps(8, p, p);
    assert steps[..2] == [p, p];
    assert RunOf(8, steps) == Next(RunOf(8, [p, p]), Watch(1));
    assert LostAt(8, steps, 2, 2);
    DeliveredOrLost(8, steps, 2);
  }

  // ----- When delivery has no gaps -----

  /** No poll that had something to return found the low-water mark above its cursor. */
  ghost predicate NeverOvertaken(capacity: nat, steps: seq<Step>) {
    forall k :: 0 <= k < |steps| && steps[k].Poll? ==> !Overtaken(RunOf(capacity, steps[..k]))
  }

  ghost predicate Overtaken(w: World) {
    w.reader.cursor < w.log.low < |w.log.history|
  }

  ghost predicate Gapless(w: World) {
    w.reader.cursor <= |w.log.history| && w.reader.delivered == w.log.history[..w.reader.cursor]
  }

  lemma NextIsGapless(w: World, s: Step)
    requires ValidWorld(w) && Gapless(w) && !s.Watch?
    requires s.Poll? ==> !Overtaken(w)
    ensures Gapless(Next(w, s))
  {
    if s.Poll? {
      var history, c, batch := w.log.history, w.reader.cursor, SinceOf(w.log, w.reader.cursor, s.limit);
      if batch == [] {
        assert w.reader.delivered + batch == w.reader.delivered;
      } else {
        var end := c + |batch|;
        assert Max(c, w.log.low) == c && batch == history[c..end];
        assert batch[|batch| - 1] == history[end - 1] && history[end - 1].sequence == end;
        assert history[..c] + history[c..end] == history[..end];
      }
    }
  }

  /**
   * A conforming reader has been handed the whole history up to its cursor, without gap,
   * exactly when no poll was overtaken by eviction or clear.
   */
  lemma {:induction false} GaplessIffNeverOvertaken(capacity: nat, steps: seq<Step>)
    requires forall k :: 0 <= k < |steps| ==> !steps[k].Watch?
    ensures Gapless(RunOf(capacity, steps)) <==> NeverOvertaken(capacity, steps)
  {
    if NeverOvertaken(capacity, steps) {
      NeverOvertakenIsGapless(capacity, steps);
    } else {
      var k :| 0 <= k < |steps| && steps[k].Poll? && Overtaken(RunOf(capacity, steps[..k]));
      OvertakenLoses(capacity, steps, k);
    }
  }

  lemma {:induction false} NeverOvertakenIsGapless(capacity: nat, steps: seq<Step>)
    requires forall k :: 0 <= k < |steps| ==> !steps[k].Watch?
    requires NeverOvertaken(capacity, steps)
    ensures Gapless(RunOf(capacity, steps))
  {
    if steps == [] {
    } else {
      var before := steps[..|steps| - 1];
      assert forall k :: 0 <= k < |before| ==> before[..k] == steps[..k];
      NeverOvertakenIsGapless(capacity, before);
      RunIsValid(capacity, before);
      NextIsGapless(RunOf(capacity, before), steps[|steps| - 1]);
    }
  }

  lemma OvertakenPollMoves(w: World, limit: nat)
    requires ValidWorld(w) && Overtaken(w)
    ensures w.reader.cursor < Next(w, Poll(limit)).reader.cursor
  {
  }

  lemma OvertakenLoses(capacity: nat, steps: seq<Step>, k: nat)
    requires k < |steps| && steps[k].Poll? && Overtaken(RunOf(capacity, steps[..k]))
    ensures !Gapless(RunOf(capacity, steps))
  {
    hide Gapless, Delivered, ValidLog, SinceOf;
    var w := RunOf(capacity, steps[..k]);
    var sequence := w.reader.cursor + 1;
    RunIsValid(capacity, steps[..k]);
    OvertakenPollMoves(w, steps[k].limit);
    RunIsValid(capacity, steps);
    assert steps[..k + 1][..k] == steps[..k];
    CursorMonotone(capacity, steps, k + 1);
    assert LostAt(capacity, steps, k, sequence);
    DeliveredOrLost(capacity, steps, sequence);
    GaplessDelivers(RunOf(capacity, steps), sequence);
  }

  // ----- Catching up -----

  function Pending(w: World): nat
    requires w.log.low <= |w.log.history|
  {
    |w.log.history| - Min(|w.log.history|, Max(w.reader.cursor, w.log.low))
  }

  function Polls(w: World, limit: nat, n: nat): (r: World)
    requires w.log.low <= |w.log.history|
    ensures r.log == w.log
  {
    if n == 0 then w else Next(Polls(w, limit, n - 1), Poll(limit))
  }

  /** Once publishing stops, every poll hands over one full batch until nothing is pending. */
  lemma {:induction false} PollsAdvance(w: World, limit: nat, n: nat)
    requires ValidWorld(w)
    ensures var r := Polls(w, limit, n);
            && ValidWorld(r)
            && Pending(r) == (if n * Batch(limit) >= Pending(w) then 0 else Pending(w) - n * Batch(limit))
            && (Pending(w) > 0 && n * Batch(limit) >= Pending(w) ==> r.reader.cursor == |w.log.history|)
  {
    hide Next, Batch;
    if n == 0 {
    } else {
      PollsAdvance(w, limit, n - 1);
      var r := Polls(w, limit, n - 1);
      NextIsValid(r, Poll(limit));
      OneMore(n, Batch(limit));
      PollAdvances(r, limit);
    }
  }

  lemma PollAdvances(r: World, limit: nat)
    requires ValidWorld(r)
    ensures var next := Next(r, Poll(limit));
            && Pending(next) == (if Batch(limit) >= Pending(r) then 0 else Pending(r) - Batch(limit))
            && (Pending(r) > 0 && Batch(limit) >= Pending(r) ==> next.reader.cursor == |r.log.history|)
            && (Pending(r) == 0 ==> next == r)
  {
    assert r.reader.delivered + [] == r.reader.delivered;
  }

  /** A reader with nothing pending stays where it is. */
  lemma {:induction false} NothingPendingStays(w: World, limit: nat, n: nat)
    requires ValidWorld(w) && Pending(w) == 0
    ensures Polls(w, limit, n) == w
  {
    hide Next, ValidLog, Pending;
    if n == 0 {
    } else {
      NothingPendingStays(w, limit, n - 1);
      PollAdvances(w, limit);
    }
  }

  lemma PendingBounds(w: World)
    requires ValidWorld(w)
    ensures Pending(w) > 0 ==> w.reader.cursor < |w.log.history|
  {
  }

  lemma CatchUpPending(w: World, limit: nat, n: nat)
    requires ValidWorld(w) && Pending(w) > 0
    ensures Polls(w, limit, n).reader.cursor == |w.log.history| <==> n * Batch(limit) >= Pending(w)
  {
    hide Pending, Polls, Batch;
    PollsAdvance(w, limit, n);
    PendingBounds(Polls(w, limit, n));
  }

  /**
   * So ceil(pending / limit) polls reach the latest sequence, and fewer do not, exactly when
   * something is pending. A reader that is behind with nothing pending, because the ring was
   * cleared, never gets there.
   */
  lemma CatchUp(w: World, limit: nat, n: nat)
    requires ValidWorld(w)
    ensures Polls(w, limit, n).reader.cursor == |w.log.history| <==>
            w.reader.cursor == |w.log.history| ||
            (Pending(w) > 0 && n >= (Pending(w) + Batch(limit) - 1) / Batch(limit))
  {
    PendingBounds(w);
    hide Pending, Polls;
    if Pending(w) == 0 {
      NothingPendingStays(w, limit, n);
    } else {
      CatchUpPending(w, limit, n);
      hide Batch;
      CeilDiv(Pending(w), Batch(limit), n);
    }
  }

  /** After a publish and a clear no number of polls brings a fresh reader to the latest sequence. */
  lemma BehindAfterClear(event: AgentEvent, limit: nat, n: nat)
    ensures var w := RunOf(8, [Publish(event.kind, event.payload), Clear]);
            |w.log.history| == 1 && Polls(w, limit, n).reader.cursor == 0
  {
    hide Polls;
    var steps := [Publish(event.kind, event.payload), Clear];
    TwoSteps(8, steps[0], steps[1]);
    RunIsValid(8, steps);
    NothingPendingStays(RunOf(8, steps), limit, n);
  }

  lemma TwoSteps(capacity: nat, first: Step, second: Step)
    ensures RunOf(capacity, [first, second]) == Next(Next(RunOf(capacity, []), first), second)
    ensures RunOf(capacity, [first, second][..2]) == RunOf(capacity, [first, second])
  {
    hide Next;
    var steps := [first, second];
    assert steps[..1] == [first] && steps[..2] == steps;
    assert [first][..0] == [];
  }

  /** A ring of one place loses the first of two events for a reader that polls behind both. */
  lemma EvictionLoses(event: AgentEvent)
    ensures var steps := [Publish(event.kind, event.payload), Publish(event.kind, event.payload), Poll(1)];
            !NeverOvertaken(1, steps) && !Gapless(RunOf(1, steps))
  {
    var p := Publish(event.kind, event.payload);
    var steps := [p, p, Poll(1)];
    TwoSteps(1, p, p);
    assert steps[..2] == [p, p];
    assert Overtaken(RunOf(1, steps[..2]));
    OvertakenLoses(1, steps, 2);
  }

  lemma OneMore(n: nat, b: nat)
    requires n > 0
    ensures n * b == (n - 1) * b + b
  {
  }

  lemma CeilDiv(p: nat, b: nat, n: nat)
    requires b > 0
    ensures n * b >= p <==> n >= (p + b - 1) / b
  {
    var q := (p + b - 1) / b;
    DivBounds(p + b - 1, b);
    if n >= q {
      Monotone(q, n, b);
    } else {
      Monotone(n + 1, q, b);
    }
  }

  lemma DivBounds(a: nat, b: nat)
    requires b > 0
    ensures a / b * b <= a < a / b * b + b
  {
  }

  lemma Monotone(m: nat, n: nat, b: nat)
    requires m <= n
    ensures m * b <= n * b
  {
  }
}
