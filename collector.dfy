/**
  Tree building of the current version: `_update_traces` and `_collect_stats`.

  The arena starts with the root sentinel `_CmakeTrace(0, None, None)` as node 0; every
  trace line becomes one node below it, placed one event late (its duration is only
  known when the next event arrives) and flushed with one tick at the end. `traces` is
  the `all_traces` list: the nodes whose parent is the sentinel, in creation order.
*/
module Collector {
  import opened Wrappers
  import opened Forest
  import opened TraceArena
  import opened TraceText
  import opened TraceLog
  import opened Placement

  /** `duration = current - previous`, clamped to 0 when the clock goes backwards. */
  function Elapsed(current: int, previous: int): nat
  {
    if current - previous < 0 then 0 else current - previous
  }

  /** The arena below the sentinel: node 0 has no parent, no trace info and no time of its
      own; every other node carries trace info and hangs below it; `traces` lists its
      children. */
  ghost predicate Rooted(parent: seq<int>, children: seq<seq<nat>>, own: seq<int>,
                         info: seq<Option<TraceInfo>>, traces: seq<nat>)
    requires |children| == |parent| && |own| == |parent| && |info| == |parent|
  {
    && |parent| >= 1 && parent[0] == -1 && info[0].None? && own[0] == 0
    && (forall i :: 1 <= i < |parent| ==> parent[i] >= 0 && info[i].Some?)
    && traces == children[0]
  }

  class Collector {
    const nodes: Arena<Option<TraceInfo>>
    var traces: seq<nat>

    ghost predicate Valid()
      reads this, nodes
    {
      nodes.Valid() && Rooted(nodes.parent, nodes.children, nodes.own, nodes.info, traces)
    }

    /** An empty `all_traces` list and the sentinel. */
    constructor ()
      ensures Valid() && fresh(nodes)
      ensures |nodes.parent| == 1 && traces == []
    {
      var a := new Arena<Option<TraceInfo>>();
      var root := a.AddNode(0, None, -1);
      nodes := a;
      traces := [];
    }

    /**
      The `enumerate_frames` loop of `_update_traces`: walks from the cursor's last child
      (or the cursor) up to the sentinel, keeping the closest frame of the previous line's
      file, and returns the parent it chose.
    */
    method HeuristicScan(cursor: nat, prevInfo: TraceInfo) returns (p: int)
      requires Valid() && cursor < |nodes.parent|
      ensures p == HeuristicParent(nodes.parent, nodes.info, prevInfo, cursor)
      ensures 0 <= p < |nodes.parent|
    {
      ghost var P, I := nodes.parent, nodes.info;
      LastOfChildren(P, cursor, |P|);
      var f: int := cursor;
      var kids := nodes.children[cursor];
      if kids != [] {
        f := kids[|kids| - 1];
      }
      var acc := NoInsertion;
      while f != -1
        invariant -1 <= f < |P|
        invariant ScanFrom(P, I, prevInfo, f, acc) == ScanFrom(P, I, prevInfo, FirstFrame(P, cursor), NoInsertion)
        decreases f + 1
      {
        var ti := nodes.info[f];
        if ti.Some? && ti.value.file == prevInfo.file {
          var distance := Abs(ti.value.line - prevInfo.line);
          if acc.distance.None? || distance < acc.distance.value {
            acc := Insertion(Some(distance), nodes.parent[f]);
          }
        } else if acc.target == -1 {
          acc := Insertion(None, f);
        }
        f := nodes.parent[f];
      }
      p := cursor;
      if acc.target != -1 {
        p := acc.target;
      }
      HeuristicInRange(P, I, prevInfo, cursor);
    }

    /** The declared-nesting branches of `_update_traces`: stay, walk up `-diff` parents
        (each must exist), or descend to the last subtrace. */
    method DeclaredWalk(cursor: nat, diff: int) returns (r: Result<int, Failure>)
      requires Valid() && cursor < |nodes.parent|
      ensures r == DeclaredParent(nodes.parent, cursor, diff)
      ensures r.Ok? ==> 0 <= r.value < |nodes.parent|
    {
      ghost var P := nodes.parent;
      LastOfChildren(P, cursor, |P|);
      DeclaredMeaning(P, cursor, diff);
      if diff == 0 {
        r := Ok(cursor);
      } else if diff < 0 {
        var p := cursor;
        var k := diff;
        while k < 0
          invariant diff <= k <= 0 && 0 <= p < |P|
          invariant Up(P, cursor, -diff) == Up(P, p, -k)
        {
          if nodes.parent[p] == -1 {
            return Err(NoParent);
          }
          p := nodes.parent[p];
          k := k + 1;
        }
        r := Ok(p);
      } else if diff == 1 {
        var kids := nodes.children[cursor];
        if kids == [] {
          return Err(NoSubtrace);
        }
        r := Ok(kids[|kids| - 1]);
      } else {
        r := Err(NestingJump);
      }
    }

    /**
      `_update_traces`: creates the node of the previous line `prevInfo`, lasting from
      `prevTime` to `time` (never negative), under the parent `PlaceParent` chooses from
      the cursor, and returns that parent as the new cursor. Every node above the new one
      gains its duration, and the node joins `traces` exactly when its parent is the
      sentinel. A failed placement changes nothing.
    */
    method UpdateTraces(cursor: nat, time: int, prevTime: int, nesting: int, prevNesting: int,
                        prevInfo: TraceInfo) returns (r: Result<int, Failure>)
      requires Valid() && cursor < |nodes.parent|
      modifies this, nodes
      ensures Valid()
      ensures r == PlaceParent(old(nodes.parent), old(nodes.info), cursor, nesting, prevNesting, prevInfo)
      ensures r.Ok? ==>
                && 0 <= r.value < old(|nodes.parent|)
                && nodes.parent == old(nodes.parent) + [r.value]
                && nodes.info == old(nodes.info) + [Some(prevInfo)]
                && nodes.own == old(nodes.own) + [Elapsed(time, prevTime)]
                && nodes.duration[old(|nodes.parent|)] == Elapsed(time, prevTime)
                && Raised(old(nodes.parent), old(nodes.duration), nodes.duration[..old(|nodes.parent|)],
                          r.value, Elapsed(time, prevTime))
                && traces == old(traces) + (if r.value == 0 then [old(|nodes.parent|)] else [])
      ensures r.Err? ==> unchanged(nodes) && traces == old(traces)
    {
      var duration := Elapsed(time, prevTime);
      var placed: Result<int, Failure>;
      if nesting == 0 {
        var h := HeuristicScan(cursor, prevInfo);
        placed := Ok(h);
      } else {
        placed := DeclaredWalk(cursor, nesting - prevNesting);
      }
      if placed.Err? {
        return Err(placed.error);
      }
      var p := placed.value;
      ghost var P, C, O, I := nodes.parent, nodes.children, nodes.own, nodes.info;
      RootedAdd(P, C, O, I, traces, p, duration, prevInfo);
      var n := nodes.AddNode(duration, Some(prevInfo), p);
      if nodes.info[p].None? {
        traces := traces + [n];
      }
      r := Ok(p);
    }
  }

  /** A new node with trace info below an existing node keeps the arena rooted; it joins
      the top-level list exactly when it hangs below the sentinel. */
  lemma RootedAdd(parent: seq<int>, children: seq<seq<nat>>, own: seq<int>, info: seq<Option<TraceInfo>>,
                  traces: seq<nat>, p: nat, d: int, ti: TraceInfo)
    requires |children| == |parent| && |own| == |parent| && |info| == |parent|
    requires Rooted(parent, children, own, info, traces) && p < |parent|
    ensures info[p].None? <==> p == 0
    ensures Rooted(parent + [p], AppendChild(children, p, |parent|), own + [d], info + [Some(ti)],
                   traces + (if p == 0 then [|parent|] else []))
  {
  }

  // ---------------------------------------------------------------------------
  // `_collect_stats` as a specification

  /** The nesting level `_collect_stats` remembers for an event (0 when absent). */
  function Level(e: Event): int
  {
    if e.nesting.None? then 0 else e.nesting.value
  }

  /** The nesting level remembered before event `j` (1 before the first). */
  function Before(events: seq<Event>, j: nat): int
    requires j < |events|
  {
    if j == 0 then 1 else Level(events[j - 1])
  }

  /** The `current_nesting` passed when event `j` is placed. */
  function CallNesting(events: seq<Event>, j: nat): int
    requires j < |events|
  {
    Level(events[j])
  }

  /** The `previous_nesting` passed when event `j` is placed: the level before it, 0 without
      nesting, and the event's own level at the final flush. */
  function CallPrevNesting(events: seq<Event>, j: nat): int
    requires j < |events|
  {
    if j == |events| - 1 then Level(events[j])
    else if events[j].nesting.None? then 0
    else Before(events, j)
  }

  /** The own time of event `j`: up to the next event, or one tick for the last one. */
  function Gap(events: seq<Event>, j: nat): nat
    requires j < |events|
  {
    if j + 1 < |events| then Elapsed(events[j + 1].time, events[j].time)
    else Elapsed(events[j].time + Tick, events[j].time)
  }

  /** The cursor when event `j` is placed: the sentinel first, then the parent of the
      previous event's node. */
  function CursorAt(parent: seq<int>, j: nat): int
    requires j < |parent|
  {
    if j == 0 then 0 else parent[j]
  }

  /** Node `j + 1` records event `j`: its trace info, its own time, and the parent the
      placement rules chose in the arena as it was then. */
  ghost predicate Recorded(parent: seq<int>, info: seq<Option<TraceInfo>>, own: seq<int>,
                           events: seq<Event>, j: nat)
    requires Links(parent) && |info| == |parent| && |own| == |parent| && j + 1 < |parent| && j < |events|
  {
    && info[j + 1] == Some(events[j].info)
    && own[j + 1] == Gap(events, j)
    && 0 <= CursorAt(parent, j)
    && PlaceParent(parent[..j + 1], info[..j + 1], CursorAt(parent, j), CallNesting(events, j),
                   CallPrevNesting(events, j), events[j].info) == Ok(parent[j + 1])
  }

  /** Every node but the sentinel records its event. */
  ghost predicate AllRecorded(parent: seq<int>, info: seq<Option<TraceInfo>>, own: seq<int>, events: seq<Event>)
    requires Links(parent) && |info| == |parent| && |own| == |parent| && |parent| <= |events| + 1
  {
    forall j :: 0 <= j < |parent| - 1 ==> Recorded(parent, info, own, events, j)
  }

  /** Placing the event after the recorded ones fails with `f`. */
  ghost predicate FailsNext(parent: seq<int>, info: seq<Option<TraceInfo>>, events: seq<Event>, f: Failure)
  {
    var j := |parent| - 1;
    && 0 <= j < |events| && Links(parent) && |info| == |parent| && 0 <= CursorAt(parent, j)
    && PlaceParent(parent, info, CursorAt(parent, j), CallNesting(events, j), CallPrevNesting(events, j),
                   events[j].info) == Err(f)
  }

  /** The loop variables of `_collect_stats`: `previous_nesting`, `previous_timeval`,
      `previous_trace_info`, `previous_nesting_diff` and the current parent. */
  datatype Carry = Carry(nesting: int, time: int, info: Option<TraceInfo>, diff: int, cursor: nat)

  const Initial := Carry(1, 0, None, 0, 0)

  /** The loop variables after the first `k` events, and the size of the arena built. */
  ghost predicate Carried(parent: seq<int>, events: seq<Event>, k: nat, v: Carry)
    requires k <= |events|
  {
    && |parent| == (if k == 0 then 1 else k)
    && (k == 0 ==> v == Initial)
    && (k > 0 ==>
          && v.info == Some(events[k - 1].info) && v.time == events[k - 1].time
          && v.nesting == Level(events[k - 1])
          && v.nesting - v.diff == (if events[k - 1].nesting.None? then 0 else Before(events, k - 1))
          && v.cursor == CursorAt(parent, k - 1))
  }

  /**
    `_collect_stats` over the reader's events. Node `j + 1` records event `j` for every
    event placed; all events are placed exactly when no placement fails, and on a failure
    the next event's placement is the one that failed.
  */
  method CollectStats(events: seq<Event>) returns (c: Collector, failure: Option<Failure>)
    ensures fresh(c) && fresh(c.nodes) && c.Valid()
    ensures |c.nodes.parent| <= |events| + 1
    ensures failure.None? <==> |c.nodes.parent| == |events| + 1
    ensures AllRecorded(c.nodes.parent, c.nodes.info, c.nodes.own, events)
    ensures failure.Some? ==> FailsNext(c.nodes.parent, c.nodes.info, events, failure.value)
  {
    c := new Collector();
    var v := Initial;
    failure := None;
    var k := 0;
    while k < |events|
      invariant 0 <= k <= |events|
      invariant fresh(c) && fresh(c.nodes) && c.Valid()
      invariant Carried(c.nodes.parent, events, k, v)
      invariant AllRecorded(c.nodes.parent, c.nodes.info, c.nodes.own, events)
    {
      var r := Advance(c, events, k, v);
      if r.Err? {
        failure := Some(r.error);
        return;
      }
      v := r.value;
      k := k + 1;
    }
    failure := Flush(c, events, v);
  }

  /** The `else` branch of the loop: the last event, if any, is placed lasting one tick. */
  method Flush(c: Collector, events: seq<Event>, v: Carry) returns (failure: Option<Failure>)
    requires c.Valid() && Carried(c.nodes.parent, events, |events|, v)
    requires AllRecorded(c.nodes.parent, c.nodes.info, c.nodes.own, events)
    modifies c, c.nodes
    ensures c.Valid() && |c.nodes.parent| <= |events| + 1
    ensures failure.None? <==> |c.nodes.parent| == |events| + 1
    ensures AllRecorded(c.nodes.parent, c.nodes.info, c.nodes.own, events)
    ensures failure.Some? ==> FailsNext(c.nodes.parent, c.nodes.info, events, failure.value)
  {
    failure := None;
    if v.info.Some? {
      var k := |events|;
      var r := PlaceEvent(c, events, k - 1, v.cursor, v.time + Tick, v.time, v.nesting, v.nesting, v.info.value);
      if r.Err? {
        failure := Some(r.error);
      }
    }
  }

  /** One round of the `_collect_stats` loop: places the previous event, if there is one,
      then takes over event `k`'s nesting, time and trace info. */
  method Advance(c: Collector, events: seq<Event>, k: nat, v: Carry) returns (r: Result<Carry, Failure>)
    requires c.Valid() && k < |events| && Carried(c.nodes.parent, events, k, v)
    requires AllRecorded(c.nodes.parent, c.nodes.info, c.nodes.own, events)
    modifies c, c.nodes
    ensures c.Valid() && |c.nodes.parent| <= k + 1
    ensures AllRecorded(c.nodes.parent, c.nodes.info, c.nodes.own, events)
    ensures r.Ok? ==> Carried(c.nodes.parent, events, k + 1, r.value)
    ensures r.Err? ==> |c.nodes.parent| == k && FailsNext(c.nodes.parent, c.nodes.info, events, r.error)
  {
    var e := events[k];
    var cursor := v.cursor;
    if v.info.Some? {
      var placed := PlaceEvent(c, events, k - 1, cursor, e.time, v.time, v.nesting, v.nesting - v.diff,
                               v.info.value);
      if placed.Err? {
        return Err(placed.error);
      }
      cursor := placed.value;
    }
    if e.nesting.None? {
      r := Ok(Carry(0, e.time, Some(e.info), 0, cursor));
    } else {
      r := Ok(Carry(e.nesting.value, e.time, Some(e.info), e.nesting.value - v.nesting, cursor));
    }
  }

  /** One `_update_traces` call of `_collect_stats`, placing event `j` as node `j + 1`. */
  method PlaceEvent(c: Collector, events: seq<Event>, j: nat, cursor: nat, time: int, prevTime: int,
                    nesting: int, prevNesting: int, prevInfo: TraceInfo) returns (r: Result<int, Failure>)
    requires c.Valid() && j < |events| && |c.nodes.parent| == j + 1
    requires cursor == CursorAt(c.nodes.parent, j)
    requires AllRecorded(c.nodes.parent, c.nodes.info, c.nodes.own, events)
    requires prevInfo == events[j].info && prevTime == events[j].time && Elapsed(time, prevTime) == Gap(events, j)
    requires nesting == CallNesting(events, j) && prevNesting == CallPrevNesting(events, j)
    modifies c, c.nodes
    ensures c.Valid()
    ensures r.Ok? ==> |c.nodes.parent| == j + 2 && r.value == CursorAt(c.nodes.parent, j + 1) && r.value >= 0
    ensures r.Ok? ==> AllRecorded(c.nodes.parent, c.nodes.info, c.nodes.own, events)
    ensures r.Err? ==> unchanged(c.nodes) && c.traces == old(c.traces)
    ensures r.Err? ==> FailsNext(c.nodes.parent, c.nodes.info, events, r.error)
  {
    ghost var P, I, O := c.nodes.parent, c.nodes.info, c.nodes.own;
    r := c.UpdateTraces(cursor, time, prevTime, nesting, prevNesting, prevInfo);
    if r.Ok? {
      RecordedStep(P, I, O, c.nodes.parent, c.nodes.info, c.nodes.own, events, r.value);
    }
  }

  /** Placing the next event keeps the records of the earlier nodes and records the new one. */
  lemma RecordedStep(parent: seq<int>, info: seq<Option<TraceInfo>>, own: seq<int>,
                     parent2: seq<int>, info2: seq<Option<TraceInfo>>, own2: seq<int>, events: seq<Event>, p: int)
    requires Links(parent) && Links(parent2) && |info| == |parent| && |own| == |parent|
    requires 1 <= |parent| <= |events|
    requires parent2 == parent + [p] && |info2| == |parent2| && |own2| == |parent2|
    requires info2 == info + [Some(events[|parent| - 1].info)] && own2 == own + [Gap(events, |parent| - 1)]
    requires AllRecorded(parent, info, own, events)
    requires var j := |parent| - 1;
             0 <= CursorAt(parent, j) &&
             PlaceParent(parent, info, CursorAt(parent, j), CallNesting(events, j),
                         CallPrevNesting(events, j), events[j].info) == Ok(p)
    ensures AllRecorded(parent2, info2, own2, events)
  {
    var m := |parent|;
    assert parent2[..m] == parent && info2[..m] == info;
    forall j | 0 <= j < m - 1 ensures Recorded(parent2, info2, own2, events, j) {
      assert Recorded(parent, info, own, events, j);
      assert parent2[..j + 1] == parent[..j + 1];
      assert info2[..j + 1] == info[..j + 1];
    }
  }

  // ---------------------------------------------------------------------------
  // What the collected forest adds up to

  lemma {:induction false} ChildSumOnlyRoot(parent: seq<int>, dur: seq<int>, m: nat)
    requires 1 <= m <= |parent| && |dur| == |parent| && parent[0] == -1
    requires forall i :: 1 <= i < |parent| ==> parent[i] >= 0
    ensures ChildSum(parent, dur, -1, m) == dur[0]
  {
    if m > 1 {
      ChildSumOnlyRoot(parent, dur, m - 1);
    }
  }

  /**
    `whole_duration`: the durations of the stored top-level traces add up to the
    sentinel's duration, which is the sum of every node's own time.
  */
  lemma WholeDurationIsOwnTime(parent: seq<int>, children: seq<seq<nat>>, dur: seq<int>, own: seq<int>,
                               info: seq<Option<TraceInfo>>, traces: seq<nat>)
    requires Conserved(parent, children, dur, own) && |info| == |parent|
    requires Rooted(parent, children, own, info, traces)
    ensures Forward(children) && forall k :: 0 <= k < |traces| ==> traces[k] < |children|
    ensures SumDurations(StoredForest(info, dur, children, traces)) == dur[0] == Sum(own)
  {
    ConservedForward(parent, children, dur, own);
    var ts := StoredForest(info, dur, children, traces);
    forall k | 0 <= k < |traces| ensures traces[k] < |dur| && ts[k].duration == dur[traces[k]] {
      SnapshotConserves(parent, children, dur, own, info, traces[k]);
    }
    SumDurationsAt(ts, dur, traces);
    DurationSplit(parent, children, dur, own, 0);
    ChildSumOnlyRoot(parent, dur, |parent|);
  }

  /** The own times of the first `m` events. */
  function GapTotal(events: seq<Event>, m: nat): int
    requires m <= |events|
  {
    if m == 0 then 0 else GapTotal(events, m - 1) + Gap(events, m - 1)
  }

  lemma {:induction false} OwnPrefix(parent: seq<int>, info: seq<Option<TraceInfo>>, own: seq<int>,
                                     events: seq<Event>, m: nat)
    requires Links(parent) && |info| == |parent| && |own| == |parent| && |parent| <= |events| + 1
    requires m < |parent| && own[0] == 0 && AllRecorded(parent, info, own, events)
    ensures Sum(own[..m + 1]) == GapTotal(events, m)
  {
    if m > 0 {
      OwnPrefix(parent, info, own, events, m - 1);
      assert own[..m + 1][..m] == own[..m];
      assert Recorded(parent, info, own, events, m - 1);
    }
  }

  /** After a complete run, the own times are exactly the events' gaps (the last one lasting
      one tick). */
  lemma OwnIsGaps(parent: seq<int>, info: seq<Option<TraceInfo>>, own: seq<int>, events: seq<Event>)
    requires Links(parent) && |info| == |parent| && |own| == |parent| && |parent| == |events| + 1
    requires own[0] == 0 && AllRecorded(parent, info, own, events)
    ensures Sum(own) == GapTotal(events, |events|)
  {
    OwnPrefix(parent, info, own, events, |events|);
    assert own[..|events| + 1] == own;
  }

  /**
    The clamped gaps never add up to less than the time from the first to the last event
    plus the final tick, and exactly that when the clock never goes backwards.
  */
  lemma {:induction false} GapsSpanLog(events: seq<Event>, m: nat)
    requires 1 <= m <= |events|
    ensures m < |events| ==> GapTotal(events, m) >= events[m].time - events[0].time
    ensures m == |events| ==> GapTotal(events, m) >= events[m - 1].time - events[0].time + Tick
    ensures (forall j :: 0 <= j < m - 1 ==> events[j].time <= events[j + 1].time) ==>
              if m < |events| then
                (events[m - 1].time <= events[m].time ==> GapTotal(events, m) == events[m].time - events[0].time)
              else GapTotal(events, m) == events[m - 1].time - events[0].time + Tick
  {
    if m > 1 {
      GapsSpanLog(events, m - 1);
    }
  }

  /** The reported total of a complete run. */
  lemma CollectedTotal(parent: seq<int>, children: seq<seq<nat>>, dur: seq<int>, own: seq<int>,
                       info: seq<Option<TraceInfo>>, traces: seq<nat>, events: seq<Event>)
    requires Conserved(parent, children, dur, own) && |info| == |parent|
    requires Rooted(parent, children, own, info, traces)
    requires |parent| == |events| + 1 && AllRecorded(parent, info, own, events)
    requires forall j :: 0 <= j < |events| - 1 ==> events[j].time <= events[j + 1].time
    ensures Forward(children) && forall k :: 0 <= k < |traces| ==> traces[k] < |children|
    ensures events != [] ==>
              SumDurations(StoredForest(info, dur, children, traces)) == events[|events| - 1].time - events[0].time + Tick
    ensures events == [] ==> traces == []
  {
    WholeDurationIsOwnTime(parent, children, dur, own, info, traces);
    if events != [] {
      OwnIsGaps(parent, info, own, events);
      GapsSpanLog(events, |events|);
    } else {
      ChildrenOfNone(parent, 0, |parent|);
    }
  }

  /** Clamped gaps are never negative, and those of a whole run include the final tick. */
  lemma {:induction false} GapTotalBounds(events: seq<Event>, m: nat)
    requires m <= |events|
    ensures GapTotal(events, m) >= 0
    ensures 0 < m == |events| ==> GapTotal(events, m) >= Tick
  {
    if m > 0 {
      GapTotalBounds(events, m - 1);
    }
  }

  /**
    The reported total of a complete run, whatever the clock does: a run with events lasts
    at least one tick, and at least the time from the first event to the last plus the
    final tick, since backward steps of the clock count as 0.
  */
  lemma WholePositive(parent: seq<int>, children: seq<seq<nat>>, dur: seq<int>, own: seq<int>,
                      info: seq<Option<TraceInfo>>, traces: seq<nat>, events: seq<Event>)
    requires Conserved(parent, children, dur, own) && |info| == |parent|
    requires Rooted(parent, children, own, info, traces)
    requires |parent| == |events| + 1 && AllRecorded(parent, info, own, events)
    ensures Forward(children) && forall k :: 0 <= k < |traces| ==> traces[k] < |children|
    ensures events != [] ==>
              && SumDurations(StoredForest(info, dur, children, traces)) >= Tick
              && SumDurations(StoredForest(info, dur, children, traces)) >= events[|events| - 1].time - events[0].time + Tick
    ensures events == [] ==> traces == []
    ensures traces != [] ==> SumDurations(StoredForest(info, dur, children, traces)) >= Tick
  {
    WholeDurationIsOwnTime(parent, children, dur, own, info, traces);
    if events != [] {
      OwnIsGaps(parent, info, own, events);
      GapTotalBounds(events, |events|);
      GapsSpanLog(events, |events|);
    } else {
      ChildrenOfNone(parent, 0, |parent|);
    }
  }

  // ---------------------------------------------------------------------------
  // Declared nesting is honoured

  /** Events that all declare a (non-zero) nesting level. */
  predicate Declared(events: seq<Event>)
  {
    forall j :: 0 <= j < |events| ==> events[j].nesting.Some? && events[j].nesting.value != 0
  }

  lemma {:induction false} CursorDepth(parent: seq<int>, info: seq<Option<TraceInfo>>, own: seq<int>,
                                       events: seq<Event>, j: nat)
    requires Links(parent) && |info| == |parent| && |own| == |parent| && |parent| == |events| + 1
    requires parent[0] == -1 && AllRecorded(parent, info, own, events) && Declared(events)
    requires j < |events|
    ensures 0 <= CursorAt(parent, j) && Depth(parent, CursorAt(parent, j)) == Before(events, j)
  {
    if j == 0 {
      assert Depth(parent, 0) == 1 + Depth(parent, -1);
    } else {
      var i := j - 1;
      CursorDepth(parent, info, own, events, i);
      assert Recorded(parent, info, own, events, i);
      var P := parent[..i + 1];
      var cursor := CursorAt(parent, i);
      DeclaredMeaning(P, cursor, CallNesting(events, i) - CallPrevNesting(events, i));
      DepthPrefix(parent, i + 1, cursor);
      DepthPrefix(parent, i + 1, parent[j]);
    }
  }

  /**
    With declared nesting, a complete run puts every event's node at depth nesting + 1,
    counting the sentinel as depth 1; the flushed last event becomes a sibling of the event
    before it.
  */
  lemma NestingHonoured(parent: seq<int>, info: seq<Option<TraceInfo>>, own: seq<int>, events: seq<Event>)
    requires Links(parent) && |info| == |parent| && |own| == |parent| && |parent| == |events| + 1
    requires parent[0] == -1 && AllRecorded(parent, info, own, events) && Declared(events)
    ensures forall j :: 0 <= j < |events| - 1 ==> Depth(parent, j + 1) == events[j].nesting.value + 1
    ensures |events| >= 1 ==> Depth(parent, |events|) == Before(events, |events| - 1) + 1
  {
    forall j | 0 <= j < |events| ensures Depth(parent, j + 1) == (if j < |events| - 1 then events[j].nesting.value else Before(events, j)) + 1 {
      CursorDepth(parent, info, own, events, j);
      assert Recorded(parent, info, own, events, j);
      var P := parent[..j + 1];
      var cursor := CursorAt(parent, j);
      DeclaredMeaning(P, cursor, CallNesting(events, j) - CallPrevNesting(events, j));
      DepthPrefix(parent, j + 1, cursor);
      DepthPrefix(parent, j + 1, parent[j + 1]);
    }
  }
}
