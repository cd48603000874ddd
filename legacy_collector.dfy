/**
  Tree building of the older version (`cmake_profile_stat.py`): `update_trace`,
  `parent_trace`, `add_new_trace` and `collect_stats`.

  Nodes live in an `Arena` whose top-level nodes have no parent (-1). A finished
  top-level trace is filed in the shelf under its `key()`, next to the two reserved entries
  `trace.keys` and `whole.duration`; the shelf pickles what it is given, so an entry is the
  stored form of the trace at the time it was filed. Every failed Python `assert` and
  every uncaught exception ends the run; each is a `Crash`.
*/
module LegacyCollector {
  import opened Wrappers
  import opened Forest
  import opened TraceArena
  import opened LegacyText

  const TraceKeysKey := "trace.keys"
  const WholeDurationKey := "whole.duration"

  predicate IsReserved(key: string)
  {
    key == TraceKeysKey || key == WholeDurationKey
  }

  datatype Crash =
    | BadTime              // `float()` of the time raises
    | BadNesting           // `int()` of the nesting raises
    | NestingJump          // the nesting grew by more than one
    | NonPositiveDuration  // `assert duration > 0`
    | StartTwice           // `assert len(startTimeRef) == 0`
    | NoTrace              // an attribute of `None`: no trace to descend from or walk up from
    | NoSubtrace           // `traces[-1]` of a trace without subtraces
    | ReservedKey          // `assert len(traces) == len(traceKeys) + 2`
    | EmptyLog             // `prevTimeval + 10E-7` with no line matched

  /** A shelf entry: one of the two reserved ones, or a filed trace. */
  datatype Entry = Reserved | Stored(trace: Tree<LegacyInfo>)

  /** The shelf holds the reserved entries and one filed trace per key of `traceKeys`, filed
      under its own key, with the duration `traceKeys` gives it, and balanced. */
  ghost predicate Filed(shelf: map<string, Entry>, traceKeys: map<string, int>)
  {
    && shelf.Keys == traceKeys.Keys + {TraceKeysKey, WholeDurationKey}
    && TraceKeysKey !in traceKeys && WholeDurationKey !in traceKeys
    && shelf[TraceKeysKey] == Reserved && shelf[WholeDurationKey] == Reserved
    && forall k :: k in traceKeys ==>
         && shelf[k].Stored?
         && Key(shelf[k].trace.info) == k
         && shelf[k].trace.duration == traceKeys[k]
         && Balanced(shelf[k].trace)
  }

  lemma FiledCount(shelf: map<string, Entry>, traceKeys: map<string, int>)
    requires Filed(shelf, traceKeys)
    ensures |shelf| == |traceKeys| + 2
  {
    var r := {TraceKeysKey, WholeDurationKey};
    assert |r| == 2;
    assert traceKeys.Keys * r == {};
    assert |shelf.Keys| == |traceKeys.Keys + r|;
  }

  /** The table check of `add_new_trace`: after filing under `key`, the shelf holds exactly
      two entries more than the key table unless `key` is one of the reserved names. */
  lemma FileCount(shelf: map<string, Entry>, traceKeys: map<string, int>, key: string, e: Entry, d: int)
    requires Filed(shelf, traceKeys)
    ensures |shelf[key := e]| == |traceKeys[key := d]| + 2 <==> !IsReserved(key)
  {
    FiledCount(shelf, traceKeys);
  }

  /** Filing a balanced trace under its own unreserved key keeps the shelf filed. */
  lemma FileMore(shelf: map<string, Entry>, traceKeys: map<string, int>, key: string, t: Tree<LegacyInfo>, d: int)
    requires Filed(shelf, traceKeys) && Key(t.info) == key && t.duration == d && Balanced(t)
    ensures !IsReserved(key) ==> Filed(shelf[key := Stored(t)], traceKeys[key := d])
  {
  }

  /** `xrange(0, levels)` runs `levels` times, and not at all when `levels` is negative. */
  function Clamp(levels: int): nat
  {
    if levels < 0 then 0 else levels
  }

  /**
    Where `update_trace` hangs the new node: `appendTrace` itself unless the nesting grew;
    then the latest child of `appendTrace`, one level deeper. The descent fails exactly
    when there is no trace, or when it has no subtrace.
  */
  function Target(parent: seq<int>, appendTrace: int, grew: bool): (r: Result<int, Crash>)
    requires Links(parent) && -1 <= appendTrace < |parent|
    ensures r == Err(NoTrace) <==> grew && appendTrace == -1
    ensures r == Err(NoSubtrace) <==>
              grew && appendTrace >= 0 && forall c :: 0 <= c < |parent| ==> parent[c] != appendTrace
    ensures r.Ok? && !grew ==> r.value == appendTrace
    ensures r.Ok? && grew ==>
              && 0 <= r.value < |parent| && parent[r.value] == appendTrace
              && (forall c :: r.value < c < |parent| ==> parent[c] != appendTrace)
              && Depth(parent, r.value) == Depth(parent, appendTrace) + 1
  {
    if !grew then Ok(appendTrace)
    else if appendTrace == -1 then Err(NoTrace)
    else match LastChild(parent, appendTrace, |parent|)
      case None => Err(NoSubtrace)
      case Some(c) => Ok(c)
  }

  /** The node `add_new_trace` files: `levels` parents above `appendTrace`, when that is a
      node. */
  function Filing(parent: seq<int>, appendTrace: int, prevNesting: int): Option<nat>
    requires Links(parent) && -1 <= appendTrace < |parent|
  {
    match Up(parent, appendTrace, Clamp(prevNesting - 2))
    case None => None
    case Some(p) => if p == -1 then None else Some(p)
  }

  /** `add_new_trace` files a node that sits at depth 1, a top-level trace, whenever
      `appendTrace` is at the depth the nesting says. */
  lemma FilingTop(parent: seq<int>, appendTrace: int, prevNesting: int)
    requires Links(parent) && -1 <= appendTrace < |parent| && prevNesting >= 1
    requires Depth(parent, appendTrace) == (if prevNesting == 1 then 1 else prevNesting - 1)
    ensures FilesTop(parent, appendTrace, prevNesting)
  {
    UpIsAncestor(parent, appendTrace, Clamp(prevNesting - 2));
  }

  /** `add_new_trace` from `appendTrace` files a top-level trace. */
  ghost predicate FilesTop(parent: seq<int>, appendTrace: int, prevNesting: int)
  {
    && Links(parent) && -1 <= appendTrace < |parent|
    && Filing(parent, appendTrace, prevNesting).Some?
    && Depth(parent, Filing(parent, appendTrace, prevNesting).value) == 1
  }

  // ---------------------------------------------------------------------------
  // `collect_stats` as a specification

  /** The loop variables of `collect_stats`: `prevTi`, `prevTimeval`, `prevNesting`,
      `nestingGrew` and `appendTrace` (-1 for `None`). */
  datatype Builder = Builder(prevTi: Option<LegacyInfo>, prevTime: Option<int>, prevNesting: int,
                             grew: bool, appendTrace: int)

  const Fresh := Builder(None, None, 0, false, -1)

  /** A matched trace line with its time (in ticks) and nesting converted. */
  datatype TraceRecord = TraceRecord(time: int, nesting: int, info: LegacyInfo)

  /** The record a line gives: none when it does not match, a crash when the time or the
      nesting does not convert. */
  function Convert(line: string, toTicks: string -> Option<int>, toInt: string -> Option<int>)
    : Result<seq<TraceRecord>, Crash>
  {
    match MatchTraceLine(line)
    case None => Ok([])
    case Some(g) =>
      match toTicks(g.time)
      case None => Err(BadTime)
      case Some(t) =>
        match toInt(g.nesting)
        case None => Err(BadNesting)
        case Some(n) => Ok([TraceRecord(t, n, LegacyInfo(g.file, g.line, g.code))])
  }

  /** The records of a log's lines, in order, up to the first conversion that raises. */
  function Converted(lines: seq<string>, toTicks: string -> Option<int>, toInt: string -> Option<int>)
    : Result<seq<TraceRecord>, Crash>
  {
    if lines == [] then Ok([])
    else match Converted(lines[..|lines| - 1], toTicks, toInt)
      case Err(e) => Err(e)
      case Ok(rs) =>
        match Convert(lines[|lines| - 1], toTicks, toInt)
        case Err(e) => Err(e)
        case Ok(more) => Ok(rs + more)
  }

  /** Converting a longer log fails if a shorter prefix does, and otherwise only adds
      records at the end. */
  lemma {:induction false} ConvertedPrefix(lines: seq<string>, toTicks: string -> Option<int>,
                                           toInt: string -> Option<int>, k: nat)
    requires k <= |lines|
    ensures Converted(lines[..k], toTicks, toInt).Err? ==> Converted(lines, toTicks, toInt).Err?
    ensures Converted(lines[..k], toTicks, toInt).Ok? && Converted(lines, toTicks, toInt).Ok? ==>
              Converted(lines[..k], toTicks, toInt).value <= Converted(lines, toTicks, toInt).value
    decreases |lines|
  {
    if k < |lines| {
      var front := lines[..|lines| - 1];
      assert front[..k] == lines[..k];
      ConvertedPrefix(front, toTicks, toInt, k);
    } else {
      assert lines[..k] == lines;
    }
  }

  function Last(rs: seq<TraceRecord>): TraceRecord
    requires rs != []
  {
    rs[|rs| - 1]
  }

  /** The nesting before record `j`: 0 before the first. */
  function Prior(rs: seq<TraceRecord>, j: nat): int
    requires j < |rs|
  {
    if j == 0 then 0 else rs[j - 1].nesting
  }

  /** Nesting starts at 1, never drops below 1 and grows by at most one per line. */
  predicate Nested(rs: seq<TraceRecord>)
  {
    forall j {:trigger Prior(rs, j)} :: 0 <= j < |rs| ==> 1 <= rs[j].nesting <= Prior(rs, j) + 1
  }

  predicate Increasing(rs: seq<TraceRecord>)
  {
    forall j :: 0 <= j < |rs| - 1 ==> rs[j].time < rs[j + 1].time
  }

  /** No line's key is one of the shelf's reserved names. */
  predicate Unreserved(rs: seq<TraceRecord>)
  {
    forall j :: 0 <= j < |rs| ==> !IsReserved(Key(rs[j].info))
  }

  /** A log `collect_stats` goes through. */
  predicate WellFormed(rs: seq<TraceRecord>)
  {
    rs != [] && Nested(rs) && Increasing(rs) && Unreserved(rs)
  }

  lemma WellFormedPrefix(rs: seq<TraceRecord>, pre: seq<TraceRecord>, rec: TraceRecord)
    requires WellFormed(rs) && pre + [rec] <= rs
    ensures Nested(pre + [rec]) && Unreserved(pre)
    ensures pre != [] ==> Last(pre).time < rec.time
  {
    var q := pre + [rec];
    forall j | 0 <= j < |q| ensures 1 <= q[j].nesting <= Prior(q, j) + 1 {
      assert q[j] == rs[j] && Prior(q, j) == Prior(rs, j);
    }
    assert forall j :: 0 <= j < |pre| ==> pre[j] == rs[j];
    if pre != [] {
      assert rs[|pre| - 1].time < rs[|pre|].time;
    }
  }

  /** Node `j` records line `j` of `seen` but the last, which waits for the next line's
      time: its trace info and its duration up to the next line. */
  ghost predicate Follows(parent: seq<int>, info: seq<LegacyInfo>, own: seq<int>, startTime: seq<int>,
                          b: Builder, seen: seq<TraceRecord>)
    requires |info| == |parent| && |own| == |parent| && seen != []
  {
    && b.prevTi == Some(Last(seen).info) && b.prevTime == Some(Last(seen).time)
    && b.prevNesting == Last(seen).nesting
    && |parent| + 1 == |seen| && startTime == [seen[0].time]
    && (forall j :: 0 <= j < |parent| ==> info[j] == seen[j].info && own[j] == seen[j + 1].time - seen[j].time)
    && Sum(own) == Last(seen).time - seen[0].time
  }

  /** Every node sits at its line's nesting depth. */
  ghost predicate DepthsMatch(parent: seq<int>, seen: seq<TraceRecord>)
    requires Links(parent) && |parent| <= |seen|
  {
    forall j :: 0 <= j < |parent| ==> Depth(parent, j) == seen[j].nesting
  }

  lemma DepthsMatchMore(parent: seq<int>, seen: seq<TraceRecord>, rec: TraceRecord)
    requires Links(parent) && |parent| <= |seen| && DepthsMatch(parent, seen)
    ensures DepthsMatch(parent, seen + [rec])
  {
    var all := seen + [rec];
    assert forall j :: 0 <= j < |parent| ==> all[j] == seen[j];
  }

  /** The latest of the first `k` lines at nesting `d`, or -1 when there is none. */
  function LatestAt(rs: seq<TraceRecord>, k: nat, d: int): (r: int)
    requires k <= |rs|
    ensures -1 <= r < k
    ensures r >= 0 ==> rs[r].nesting == d && forall x :: r < x < k ==> rs[x].nesting != d
    ensures r == -1 ==> forall x :: 0 <= x < k ==> rs[x].nesting != d
  {
    if k == 0 then -1 else if rs[k - 1].nesting == d then k - 1 else LatestAt(rs, k - 1, d)
  }

  /** The line that line `j` is called from: the latest earlier line one level up, or -1
      for a top-level line. */
  function Caller(rs: seq<TraceRecord>, j: nat): int
    requires j < |rs|
  {
    LatestAt(rs, j, rs[j].nesting - 1)
  }

  /** Every node hangs below its line's caller. */
  ghost predicate ParentsMatch(parent: seq<int>, seen: seq<TraceRecord>)
    requires |parent| <= |seen|
  {
    forall j {:trigger Caller(seen, j)} :: 0 <= j < |parent| ==> parent[j] == Caller(seen, j)
  }

  /** A later line does not change which earlier line is the latest at a level. */
  lemma {:induction false} LatestPrefix(rs: seq<TraceRecord>, rec: TraceRecord, k: nat, d: int)
    requires k <= |rs|
    ensures LatestAt(rs + [rec], k, d) == LatestAt(rs, k, d)
  {
    if k > 0 {
      assert (rs + [rec])[k - 1] == rs[k - 1];
      LatestPrefix(rs, rec, k - 1, d);
    }
  }

  /** Lines at none of level `d` do not move the latest line at that level. */
  lemma {:induction false} LatestSkip(rs: seq<TraceRecord>, lo: nat, hi: nat, d: int)
    requires lo <= hi <= |rs|
    requires forall x :: lo <= x < hi ==> rs[x].nesting != d
    ensures LatestAt(rs, hi, d) == LatestAt(rs, lo, d)
    decreases hi
  {
    if lo < hi {
      LatestSkip(rs, lo, hi - 1, d);
    }
  }

  /** With well-nested lines, every line since the last one a level above line `j` is at
      least as deep as line `j`. */
  lemma {:induction false} AboveSince(rs: seq<TraceRecord>, j: nat, i: nat)
    requires Nested(rs) && i <= j < |rs|
    requires forall x :: i <= x < j ==> rs[x].nesting != rs[j].nesting - 1
    ensures forall x :: i <= x <= j ==> rs[x].nesting >= rs[j].nesting
    decreases j - i
  {
    if i < j {
      AboveSince(rs, j, i + 1);
      assert Prior(rs, i + 1) == rs[i].nesting;
      assert rs[i + 1].nesting <= rs[i].nesting + 1;
    }
  }

  /** With well-nested lines no line sits at level 0, so a top-level line has no caller. */
  lemma {:induction false} NoLevelZero(rs: seq<TraceRecord>, k: nat)
    requires Nested(rs) && k <= |rs|
    ensures LatestAt(rs, k, 0) == -1
  {
    if k > 0 {
      assert Prior(rs, k - 1) + 1 >= rs[k - 1].nesting >= 1;
      NoLevelZero(rs, k - 1);
    }
  }

  /** With well-nested lines, every line below the top level has a caller. */
  lemma CallerExists(rs: seq<TraceRecord>, j: nat)
    requires Nested(rs) && j < |rs| && rs[j].nesting >= 2
    ensures Caller(rs, j) >= 0
  {
    AboveSince(rs, j, Caller(rs, j) + 1);
    assert rs[0].nesting <= Prior(rs, 0) + 1;
  }

  /** With well-nested lines, the latest line `k` levels above line `j` is, for `k` above
      0, the latest one `k - 1` levels above its caller. */
  lemma CallerLatest(rs: seq<TraceRecord>, j: nat, k: nat)
    requires Nested(rs) && j < |rs| && 0 < k < rs[j].nesting
    ensures var e := Caller(rs, j);
            && 0 <= e < j && rs[e].nesting == rs[j].nesting - 1
            && LatestAt(rs, j + 1, rs[j].nesting - k) == LatestAt(rs, e + 1, rs[e].nesting - (k - 1))
  {
    var e := Caller(rs, j);
    CallerExists(rs, j);
    AboveSince(rs, j, e + 1);
    LatestSkip(rs, e + 1, j + 1, rs[j].nesting - k);
  }

  /**
    With every node hung below its line's caller, walking `k` parents up from node `j` ends
    at the latest line `k` levels above line `j`: the walk `parent_trace` does when the
    nesting drops.
  */
  lemma {:induction false} AncestorIsLatest(parent: seq<int>, rs: seq<TraceRecord>, j: nat, k: nat)
    requires Links(parent) && |parent| <= |rs| && Nested(rs) && ParentsMatch(parent, rs)
    requires j < |parent| && k < rs[j].nesting
    ensures Up(parent, j, k) == Some(LatestAt(rs, j + 1, rs[j].nesting - k))
    decreases k
  {
    if k == 0 {
      assert LatestAt(rs, j + 1, rs[j].nesting) == j;
    } else {
      var e := parent[j];
      assert e == Caller(rs, j);
      CallerLatest(rs, j, k);
      AncestorIsLatest(parent, rs, e, k - 1);
      assert Up(parent, j, k) == Up(parent, e, k - 1);
    }
  }

  /** Once the waiting line hangs below its caller, every line's node does. */
  lemma ParentsLast(P0: seq<int>, seen: seq<TraceRecord>)
    requires |P0| + 1 == |seen| && ParentsMatch(P0, seen)
    ensures ParentsMatch(P0 + [Caller(seen, |P0|)], seen)
  {
    var P1 := P0 + [Caller(seen, |P0|)];
    assert forall j :: 0 <= j < |P0| ==> P1[j] == P0[j];
  }

  /** Hanging the waiting line below its caller keeps every node below its caller. */
  lemma ParentsMore(P0: seq<int>, seen: seq<TraceRecord>, rec: TraceRecord)
    requires |P0| + 1 == |seen| && ParentsMatch(P0, seen)
    ensures ParentsMatch(P0 + [Caller(seen, |P0|)], seen + [rec])
  {
    var all, P1 := seen + [rec], P0 + [Caller(seen, |P0|)];
    forall j | 0 <= j < |P1| ensures P1[j] == Caller(all, j) {
      assert all[j] == seen[j] && P1[j] == Caller(seen, j);
      LatestPrefix(seen, rec, j, seen[j].nesting - 1);
    }
  }

  /** Every node sits at its line's nesting depth below its line's caller, and
      `appendTrace` leads to the waiting line's caller: directly, or through its last child
      when the nesting grew. */
  ghost predicate Shaped(parent: seq<int>, b: Builder, seen: seq<TraceRecord>)
    requires Links(parent) && -1 <= b.appendTrace < |parent| && |parent| < |seen|
  {
    && DepthsMatch(parent, seen)
    && ParentsMatch(parent, seen)
    && Target(parent, b.appendTrace, b.grew) == Ok(Caller(seen, |parent|))
    && (b.grew ==>
          && b.appendTrace >= 0 && parent != [] && parent[|parent| - 1] == b.appendTrace
          && Depth(parent, b.appendTrace) + 2 == b.prevNesting)
    && (!b.grew ==> Depth(parent, b.appendTrace) + 1 == b.prevNesting)
  }

  /** The state of `collect_stats` after the matched lines `seen`. */
  ghost predicate Tracks(parent: seq<int>, info: seq<LegacyInfo>, own: seq<int>, startTime: seq<int>,
                         b: Builder, seen: seq<TraceRecord>)
    requires Links(parent) && |info| == |parent| && |own| == |parent|
  {
    && -1 <= b.appendTrace < |parent|
    && (seen == [] ==> b == Fresh && parent == [] && startTime == [])
    && (seen != [] ==> Follows(parent, info, own, startTime, b, seen))
    && (seen != [] && Nested(seen) ==> Shaped(parent, b, seen))
  }

  /** What a complete run leaves: one node per matched line with its trace info, each
      lasting until the next line and the last one tick; the whole duration is the last time
      minus the first, one tick less than all nodes' own times; and with well-nested lines
      every node sits at its line's nesting depth, below the latest earlier line one level
      up. */
  ghost predicate Collected(parent: seq<int>, info: seq<LegacyInfo>, own: seq<int>,
                            recs: seq<TraceRecord>, whole: int)
  {
    && Links(parent) && |info| == |parent| && |own| == |parent|
    && recs != [] && |parent| == |recs|
    && (forall j :: 0 <= j < |recs| ==> info[j] == recs[j].info)
    && (forall j :: 0 <= j < |recs| - 1 ==> own[j] == recs[j + 1].time - recs[j].time)
    && own[|recs| - 1] == Tick
    && whole == Last(recs).time - recs[0].time
    && Sum(own) == whole + Tick
    && (Nested(recs) ==> DepthsMatch(parent, recs) && ParentsMatch(parent, recs))
  }

  /** The outcome of the nesting checks that end a `collect_stats` step: back at nesting 1
      the current trace is filed and building restarts from no trace; any other drop walks
      `prevNesting - nesting` parents up; otherwise `appendTrace` stays. */
  function Settled(parent: seq<int>, info: seq<LegacyInfo>, appendTrace: int, nesting: int, prevNesting: int)
    : Result<int, Crash>
    requires Links(parent) && |info| == |parent| && -1 <= appendTrace < |parent|
  {
    if nesting > prevNesting then Ok(appendTrace)
    else if nesting != 1 then
      match Up(parent, appendTrace, Clamp(prevNesting - nesting))
      case None => Err(NoTrace)
      case Some(x) => Ok(x)
    else
      match Filing(parent, appendTrace, prevNesting)
      case None => Err(NoTrace)
      case Some(p) => if IsReserved(Key(info[p])) then Err(ReservedKey) else Ok(-1)
  }

  /** On well-nested lines the checks never fail, and a drop in nesting leaves
      `appendTrace` one level above the new line. */
  lemma SettledShape(parent: seq<int>, info: seq<LegacyInfo>, appendTrace: int, nesting: int, prevNesting: int)
    requires Links(parent) && |info| == |parent| && -1 <= appendTrace < |parent|
    requires prevNesting >= 1 && 1 <= nesting <= prevNesting + 1
    requires Depth(parent, appendTrace) == (if prevNesting == 1 then 1 else prevNesting - 1)
    requires forall x :: 0 <= x < |parent| ==> !IsReserved(Key(info[x]))
    ensures Settled(parent, info, appendTrace, nesting, prevNesting).Ok?
    ensures nesting <= prevNesting ==>
              Depth(parent, Settled(parent, info, appendTrace, nesting, prevNesting).value) + 1 == nesting
  {
    if nesting == 1 {
      FilingTop(parent, appendTrace, prevNesting);
    } else if nesting <= prevNesting {
      UpIsAncestor(parent, appendTrace, prevNesting - nesting);
    }
  }

  /** Where the waiting line goes, on well-nested lines: its target exists, one level above
      the line's nesting, and the new node lands at the line's nesting depth. */
  lemma {:induction false} PlaceShape(parent: seq<int>, b: Builder, seen: seq<TraceRecord>)
    requires Links(parent) && seen != [] && |parent| + 1 == |seen| && -1 <= b.appendTrace < |parent|
    requires b.prevNesting == Last(seen).nesting && Nested(seen) && Shaped(parent, b, seen)
    ensures Target(parent, b.appendTrace, b.grew).Ok?
    ensures var q := Target(parent, b.appendTrace, b.grew).value;
            var parent1 := parent + [q];
            var at1 := if q == -1 then |parent| else q;
            && Links(parent1)
            && DepthsMatch(parent1, seen)
            && Depth(parent1, at1) == (if b.prevNesting == 1 then 1 else b.prevNesting - 1)
            && (q == -1 <==> b.prevNesting == 1)
  {
    var m := |parent|;
    assert 1 <= Last(seen).nesting;
    TargetDepth(parent, b);
    var q := Target(parent, b.appendTrace, b.grew).value;
    var parent1 := parent + [q];
    assert Links(parent1);
    DepthExtend(parent, q, q);
    assert Depth(parent1, m) == 1 + Depth(parent1, q) == seen[m].nesting;
    forall j | 0 <= j < m + 1 ensures Depth(parent1, j) == seen[j].nesting {
      if j < m {
        DepthExtend(parent, q, j);
      }
    }
    assert DepthsMatch(parent1, seen);
  }

  /** The target sits one level above the waiting line, and is no node exactly at the top
      level. */
  lemma TargetDepth(parent: seq<int>, b: Builder)
    requires Links(parent) && -1 <= b.appendTrace < |parent| && b.prevNesting >= 1
    requires b.grew ==>
               && b.appendTrace >= 0 && parent != [] && parent[|parent| - 1] == b.appendTrace
               && Depth(parent, b.appendTrace) + 2 == b.prevNesting
    requires !b.grew ==> Depth(parent, b.appendTrace) + 1 == b.prevNesting
    ensures Target(parent, b.appendTrace, b.grew).Ok?
    ensures var q := Target(parent, b.appendTrace, b.grew).value;
            Depth(parent, q) + 1 == b.prevNesting && (q == -1 <==> b.prevNesting == 1)
  {
    if b.grew {
      assert LastChild(parent, b.appendTrace, |parent|) == Some(|parent| - 1);
    }
    var q := Target(parent, b.appendTrace, b.grew).value;
    if q >= 0 {
      assert Depth(parent, q) == 1 + Depth(parent, parent[q]);
    }
  }

  // ---------------------------------------------------------------------------
  // The filed traces

  /** The key table of the filed top-level nodes among the first `m`: every key of one of
      them, mapped to the latest of them with that key, since filing again under a key
      overwrites the earlier entry. */
  ghost function Tops(parent: seq<int>, info: seq<LegacyInfo>, m: nat): map<string, nat>
    requires m <= |parent| && |info| == |parent|
  {
    if m == 0 then map[]
    else
      var t := Tops(parent, info, m - 1);
      if parent[m - 1] == -1 then t[Key(info[m - 1]) := m - 1] else t
  }

  /** Each key of the table names a top-level node among the first `m` with that key, and
      every such node's key is in the table, naming that node or a later one: the table maps
      the keys of the top-level nodes, and only those, to the latest node with each. */
  lemma {:induction false} TopsLatest(parent: seq<int>, info: seq<LegacyInfo>, m: nat)
    requires m <= |parent| && |info| == |parent|
    ensures forall k :: k in Tops(parent, info, m) ==>
              var i := Tops(parent, info, m)[k];
              i < m && parent[i] == -1 && Key(info[i]) == k
    ensures forall i :: 0 <= i < m && parent[i] == -1 ==>
              Key(info[i]) in Tops(parent, info, m) && i <= Tops(parent, info, m)[Key(info[i])]
  {
    if m > 0 {
      TopsLatest(parent, info, m - 1);
    }
  }

  /** The keys of the table are exactly the keys of the top-level nodes among the first `m`. */
  lemma TopsKeys(parent: seq<int>, info: seq<LegacyInfo>, m: nat)
    requires m <= |parent| && |info| == |parent|
    ensures Tops(parent, info, m).Keys == set i | 0 <= i < m && parent[i] == -1 :: Key(info[i])
  {
    TopsLatest(parent, info, m);
    var r := Tops(parent, info, m);
    forall k | k in r ensures k in set i | 0 <= i < m && parent[i] == -1 :: Key(info[i]) {
      var i := r[k];
      assert Key(info[i]) == k;
    }
  }

  /** Nodes created later do not change the table of the first `m`. */
  lemma {:induction false} TopsPrefix(parent: seq<int>, info: seq<LegacyInfo>, q: int, ti: LegacyInfo, m: nat)
    requires m <= |parent| && |info| == |parent|
    ensures Tops(parent + [q], info + [ti], m) == Tops(parent, info, m)
  {
    if m > 0 {
      TopsPrefix(parent, info, q, ti, m - 1);
      assert (parent + [q])[m - 1] == parent[m - 1] && (info + [ti])[m - 1] == info[m - 1];
    }
  }

  /** Nodes below the top level do not change the table. */
  lemma {:induction false} TopsSkip(parent: seq<int>, info: seq<LegacyInfo>, lo: nat, hi: nat)
    requires lo <= hi <= |parent| && |info| == |parent|
    requires forall x :: lo <= x < hi ==> parent[x] != -1
    ensures Tops(parent, info, hi) == Tops(parent, info, lo)
    decreases hi
  {
    if lo < hi {
      TopsSkip(parent, info, lo, hi - 1);
    }
  }

  /** The shelf and `traceKeys` hold, under each key of `tops` and under no other filed key,
      the stored form and the duration of the node that key names. */
  ghost predicate Shelves(shelf: map<string, Entry>, traceKeys: map<string, int>, tops: map<string, nat>,
                          info: seq<LegacyInfo>, dur: seq<int>, children: seq<seq<nat>>)
  {
    && Forward(children) && |info| == |children| && |dur| == |children|
    && traceKeys.Keys == tops.Keys
    && forall k :: k in tops ==>
         && tops[k] < |children| && k in shelf && traceKeys[k] == dur[tops[k]]
         && shelf[k] == Stored(Snapshot(info, dur, children, tops[k]))
  }

  /** Filing node `o` under its key files its stored form and duration there. */
  lemma ShelvesFile(shelf: map<string, Entry>, traceKeys: map<string, int>, tops: map<string, nat>,
                    info: seq<LegacyInfo>, dur: seq<int>, children: seq<seq<nat>>, o: nat)
    requires Shelves(shelf, traceKeys, tops, info, dur, children) && o < |children|
    ensures Shelves(shelf[Key(info[o]) := Stored(Snapshot(info, dur, children, o))],
                    traceKeys[Key(info[o]) := dur[o]], tops[Key(info[o]) := o], info, dur, children)
  {
  }

  /** Node `i` is a top-level trace and no later top-level trace has its key. */
  ghost predicate LastOfKey(parent: seq<int>, info: seq<LegacyInfo>, i: nat)
    requires |info| == |parent| && i < |parent|
  {
    parent[i] == -1 && forall j :: i < j < |parent| && parent[j] == -1 ==> Key(info[j]) != Key(info[i])
  }

  /** `traceKeys` holds the keys of the top-level traces and no others, and under each the
      shelf and `traceKeys` hold the stored form and the duration of the latest top-level
      trace with that key. */
  ghost predicate FiledTops(shelf: map<string, Entry>, traceKeys: map<string, int>, parent: seq<int>,
                            info: seq<LegacyInfo>, dur: seq<int>, children: seq<seq<nat>>)
  {
    && |info| == |parent| && |dur| == |parent| && |children| == |parent| && Forward(children)
    && traceKeys.Keys == (set i | 0 <= i < |parent| && parent[i] == -1 :: Key(info[i]))
    && forall i :: 0 <= i < |parent| && LastOfKey(parent, info, i) ==>
         && Key(info[i]) in shelf && Key(info[i]) in traceKeys
         && shelf[Key(info[i])] == Stored(Snapshot(info, dur, children, i))
         && traceKeys[Key(info[i])] == dur[i]
  }

  /** When the shelf follows the table of all nodes, `traceKeys` holds the keys of the
      top-level traces and no others, and under each the shelf and `traceKeys` hold the
      stored form and the duration of the latest top-level trace with that key. */
  lemma FiledLatest(shelf: map<string, Entry>, traceKeys: map<string, int>, parent: seq<int>,
                    info: seq<LegacyInfo>, dur: seq<int>, children: seq<seq<nat>>)
    requires |info| == |parent| && Shelves(shelf, traceKeys, Tops(parent, info, |parent|), info, dur, children)
    ensures FiledTops(shelf, traceKeys, parent, info, dur, children)
  {
    var tops := Tops(parent, info, |parent|);
    TopsKeys(parent, info, |parent|);
    TopsLatest(parent, info, |parent|);
    forall i | 0 <= i < |parent| && LastOfKey(parent, info, i) ensures tops[Key(info[i])] == i {
      var l := tops[Key(info[i])];
      if i < l {
        assert parent[l] == -1 && Key(info[l]) == Key(info[i]);
      }
    }
  }

  /** The line that opens the trace being built: the latest top-level line, or 0 before
      the first line. */
  function Open(seen: seq<TraceRecord>): nat
  {
    var l := LatestAt(seen, |seen|, 1);
    if l < 0 then 0 else l
  }

  /** For well-nested lines, the shelf holds every top-level trace before the one being
      built, as the key table of the nodes before the line that opened it says. */
  ghost predicate OnShelf(shelf: map<string, Entry>, traceKeys: map<string, int>, parent: seq<int>,
                          info: seq<LegacyInfo>, dur: seq<int>, children: seq<seq<nat>>, seen: seq<TraceRecord>)
  {
    Nested(seen) ==>
      && Open(seen) <= |parent| && |info| == |parent|
      && Shelves(shelf, traceKeys, Tops(parent, info, Open(seen)), info, dur, children)
  }

  /** With well-nested lines, every node lies in the trace of the latest top-level line up to
      its own. */
  lemma {:induction false} UnderTop(parent: seq<int>, seen: seq<TraceRecord>, x: nat)
    requires Links(parent) && |parent| <= |seen| && Nested(seen) && ParentsMatch(parent, seen) && x < |parent|
    ensures 0 <= LatestAt(seen, x + 1, 1) && Below(parent, x, LatestAt(seen, x + 1, 1))
    decreases x
  {
    assert 1 <= seen[x].nesting <= Prior(seen, x) + 1;
    if seen[x].nesting != 1 {
      assert parent[x] == Caller(seen, x);
      CallerLatest(seen, x, seen[x].nesting - 1);
      UnderTop(parent, seen, parent[x]);
    }
  }

  /** A node lies in the trace of one top-level node only. */
  lemma OneTop(parent: seq<int>, x: int, o: nat, i: nat)
    requires Links(parent) && -1 <= x < |parent| && o < |parent| && i < |parent|
    requires parent[o] == -1 && parent[i] == -1 && Below(parent, x, o) && Below(parent, x, i)
    ensures i == o
  {
    if i < o {
      BelowChain(parent, x, i, o);
      assert false;
    } else if o < i {
      BelowChain(parent, x, o, i);
      assert false;
    }
  }

  /** Where the waiting line `n` goes on well-nested lines: below its caller, inside the
      trace opened by `Open(seen)`, a top-level node after which no other one opens. */
  lemma PlaceTop(P0: seq<int>, seen: seq<TraceRecord>)
    requires Links(P0) && |P0| + 1 == |seen| && Nested(seen) && ParentsMatch(P0, seen)
    ensures var q, n, o := Caller(seen, |P0|), |P0|, Open(seen);
            var P1 := P0 + [q];
            && -1 <= q < n && Links(P1) && ParentsMatch(P1, seen)
            && o <= n && o == LatestAt(seen, n + 1, 1) && P1[o] == -1 && Below(P1, n, o)
            && (forall x :: o < x < n + 1 ==> P1[x] != -1)
  {
    var q, n, o := Caller(seen, |P0|), |P0|, Open(seen);
    var P1 := P0 + [q];
    assert Links(P1);
    ParentsLast(P0, seen);
    UnderTop(P1, seen, n);
    NoLevelZero(seen, o);
    assert P1[o] == Caller(seen, o);
    forall x | o < x < n + 1 ensures P1[x] != -1 {
      AfterOpen(seen, x);
      CallerExists(seen, x);
      assert P1[x] == Caller(seen, x);
    }
  }

  /** Every line after the one that opened the current trace is nested below it. */
  lemma AfterOpen(seen: seq<TraceRecord>, x: nat)
    requires Nested(seen) && Open(seen) < x < |seen|
    ensures seen[x].nesting >= 2
  {
    assert seen[0].nesting <= Prior(seen, 0) + 1;
    assert seen[x].nesting <= Prior(seen, x) + 1;
    var l := LatestAt(seen, |seen|, 1);
    assert 0 <= l == Open(seen);
  }

  /** `add_new_trace` from where the waiting line went files the trace `Open(seen)`. */
  lemma FilingOpen(P0: seq<int>, seen: seq<TraceRecord>)
    requires Links(P0) && |P0| + 1 == |seen| && Nested(seen) && ParentsMatch(P0, seen)
    ensures var q, n := Caller(seen, |P0|), |P0|;
            && Links(P0 + [q])
            && Filing(P0 + [q], if q == -1 then n else q, seen[n].nesting) == Some(Open(seen))
  {
    var q, n := Caller(seen, |P0|), |P0|;
    var P1 := P0 + [q];
    PlaceTop(P0, seen);
    assert 1 <= seen[n].nesting <= Prior(seen, n) + 1;
    if seen[n].nesting != 1 {
      CallerExists(seen, n);
    }
    if q == -1 {
      assert Filing(P1, n, seen[n].nesting) == Some(n);
    } else {
      NoLevelZero(seen, n);
      CallerLatest(seen, n, seen[n].nesting - 1);
      AncestorIsLatest(P1, seen, q, seen[n].nesting - 2);
    }
  }

  /** Hanging the waiting line below its caller keeps the stored forms and durations of
      the filed traces: the new node joins the trace opened by `Open(seen)`, not theirs. */
  lemma ShelfPlace(shelf: map<string, Entry>, traceKeys: map<string, int>, P0: seq<int>, C0: seq<seq<nat>>,
                   D0: seq<int>, O0: seq<int>, I0: seq<LegacyInfo>, seen: seq<TraceRecord>, d: int, D1: seq<int>,
                   ti: LegacyInfo)
    requires Conserved(P0, C0, D0, O0) && |I0| == |P0| && |P0| + 1 == |seen|
    requires Nested(seen) && ParentsMatch(P0, seen) && OnShelf(shelf, traceKeys, P0, I0, D0, C0, seen)
    requires var q := Caller(seen, |P0|);
             && |D1| == |P0| + 1 && Raised(P0, D0, D1[..|P0|], q, d) && Forward(AppendChild(C0, q, |P0|))
    ensures var q, n, o := Caller(seen, |P0|), |P0|, Open(seen);
            var P1, I1 := P0 + [q], I0 + [ti];
            && o <= n && Links(P1)
            && Shelves(shelf, traceKeys, Tops(P1, I1, o), I1, D1, AppendChild(C0, q, n))
            && Tops(P1, I1, n + 1) == Tops(P1, I1, o)[Key(I1[o]) := o]
  {
    var q, n, o := Caller(seen, |P0|), |P0|, Open(seen);
    var P1, I1, C1 := P0 + [q], I0 + [ti], AppendChild(C0, q, n);
    PlaceTop(P0, seen);
    var tops := Tops(P0, I0, o);
    TopsLatest(P0, I0, o);
    TopsPrefix(P0, I0, q, ti, o);
    forall k | k in tops
      ensures Snapshot(I1, D1, C1, tops[k]) == Snapshot(I0, D0, C0, tops[k]) && D1[tops[k]] == D0[tops[k]]
    {
      var i := tops[k];
      if q != -1 && Below(P0, q, i) {
        BelowExtend(P0, q, q, i);
        assert Below(P1, n, i);
        OneTop(P1, n, o, i);
      }
      SnapshotOutside(P0, C0, D0, O0, I0, q, d, D1, ti, i);
    }
    TopsSkip(P1, I1, o + 1, n + 1);
  }

  /** Hanging the waiting line of `seen` below its target keeps the filed traces on the
      shelf; `add_new_trace` from the new `appendTrace` would file the open trace, which
      then becomes the latest with its key. */
  lemma ShelfHang(shelf: map<string, Entry>, traceKeys: map<string, int>,
                  P0: seq<int>, C0: seq<seq<nat>>, D0: seq<int>, O0: seq<int>, I0: seq<LegacyInfo>,
                  P1: seq<int>, C1: seq<seq<nat>>, D1: seq<int>, O1: seq<int>, I1: seq<LegacyInfo>,
                  S0: seq<int>, b: Builder, seen: seq<TraceRecord>, d: int)
    requires Conserved(P0, C0, D0, O0) && |I0| == |P0| && Tracks(P0, I0, O0, S0, b, seen)
    requires seen != [] && Nested(seen) && OnShelf(shelf, traceKeys, P0, I0, D0, C0, seen)
    requires Conserved(P1, C1, D1, O1) && Target(P0, b.appendTrace, b.grew).Ok?
    requires var q := Target(P0, b.appendTrace, b.grew).value;
             && P1 == P0 + [q] && I1 == I0 + [Last(seen).info] && Raised(P0, D0, D1[..|P0|], q, d)
    ensures var q, n, o := Target(P0, b.appendTrace, b.grew).value, |P0|, Open(seen);
            && Links(P1) && |I1| == |P1| && o <= n && Forward(C1)
            && Shelves(shelf, traceKeys, Tops(P1, I1, o), I1, D1, C1)
            && Filing(P1, if q == -1 then n else q, b.prevNesting) == Some(o)
            && Tops(P1, I1, n + 1) == Tops(P1, I1, o)[Key(I1[o]) := o]
  {
    var q, n := Caller(seen, |P0|), |P0|;
    assert Target(P0, b.appendTrace, b.grew) == Ok(q);
    AddKeepsChildren(P0, C0, D0, O0, q);
    assert C1 == AppendChild(C0, q, n);
    ConservedForward(P1, C1, D1, O1);
    ShelfPlace(shelf, traceKeys, P0, C0, D0, O0, I0, seen, d, D1, Last(seen).info);
    FilingOpen(P0, seen);
  }

  /** A matched line that passes its checks keeps both `Tracks` and `OnShelf`. */
  lemma FeedKeeps(sh0: map<string, Entry>, tk0: map<string, int>, sh1: map<string, Entry>, tk1: map<string, int>,
                  P0: seq<int>, C0: seq<seq<nat>>, D0: seq<int>, O0: seq<int>, I0: seq<LegacyInfo>,
                  P1: seq<int>, C1: seq<seq<nat>>, D1: seq<int>, O1: seq<int>, I1: seq<LegacyInfo>,
                  S0: seq<int>, S1: seq<int>, b: Builder, seen: seq<TraceRecord>, rec: TraceRecord, at1: int,
                  next: Builder)
    requires Conserved(P0, C0, D0, O0) && |I0| == |P0| && Tracks(P0, I0, O0, S0, b, seen)
    requires OnShelf(sh0, tk0, P0, I0, D0, C0, seen) && rec.nesting <= b.prevNesting + 1
    requires Conserved(P1, C1, D1, O1) && |I1| == |P1| && -1 <= at1 < |P1|
    requires seen == [] ==> P1 == P0 && C1 == C0 && D1 == D0 && O1 == O0 && I1 == I0 && S1 == [rec.time]
                            && at1 == b.appendTrace
    requires seen != [] ==>
               && Target(P0, b.appendTrace, b.grew).Ok?
               && var q := Target(P0, b.appendTrace, b.grew).value;
                  && P1 == P0 + [q] && I1 == I0 + [Last(seen).info] && O1 == O0 + [rec.time - Last(seen).time]
                  && Raised(P0, D0, D1[..|P0|], q, rec.time - Last(seen).time)
                  && S1 == S0 && at1 == (if q == -1 then |P0| else q)
    requires Settled(P1, I1, at1, rec.nesting, b.prevNesting) == Ok(next.appendTrace)
    requires -1 <= next.appendTrace < |P1|
    requires next == Builder(Some(rec.info), Some(rec.time), rec.nesting,
                             rec.nesting > 2 && rec.nesting > b.prevNesting, next.appendTrace)
    requires Forward(C1)
    requires rec.nesting <= b.prevNesting && rec.nesting == 1 && Filing(P1, at1, b.prevNesting).Some? ==>
               var p := Filing(P1, at1, b.prevNesting).value;
               && sh1 == sh0[Key(I1[p]) := Stored(Snapshot(I1, D1, C1, p))]
               && tk1 == tk0[Key(I1[p]) := D1[p]]
    requires !(rec.nesting <= b.prevNesting && rec.nesting == 1 && Filing(P1, at1, b.prevNesting).Some?) ==>
               sh1 == sh0 && tk1 == tk0
    ensures Tracks(P1, I1, O1, S1, next, seen + [rec])
    ensures OnShelf(sh1, tk1, P1, I1, D1, C1, seen + [rec])
  {
    TracksNext(P0, I0, O0, S0, P1, I1, O1, S1, b, seen, rec, at1, next);
    if Nested(seen + [rec]) {
      ShelfStep(sh0, tk0, sh1, tk1, P0, C0, D0, O0, I0, P1, C1, D1, O1, I1, S0, b, seen, rec, at1);
    }
  }

  /** On well-nested lines, `add_new_trace` from `at` files the trace `seen` opened last, a
      top-level one, the latest of all top-level nodes; the shelf holds the traces filed
      before it. */
  ghost predicate ReadyToFile(shelf: map<string, Entry>, traceKeys: map<string, int>, parent: seq<int>,
                              info: seq<LegacyInfo>, dur: seq<int>, children: seq<seq<nat>>, at: int,
                              prevNesting: int, seen: seq<TraceRecord>)
  {
    Nested(seen) ==>
      && Links(parent) && |info| == |parent| && -1 <= at < |parent|
      && FilesTop(parent, at, prevNesting)
      && var o := Open(seen);
         && o < |parent| && Filing(parent, at, prevNesting) == Some(o)
         && Shelves(shelf, traceKeys, Tops(parent, info, o), info, dur, children)
         && Tops(parent, info, |parent|) == Tops(parent, info, o)[Key(info[o]) := o]
  }

  /** The flush's placement completes the run as `Collected` says; on well-nested lines
      `add_new_trace` from there files the open trace, a top-level one. */
  lemma CloseKeeps(shelf: map<string, Entry>, traceKeys: map<string, int>,
                   P0: seq<int>, C0: seq<seq<nat>>, D0: seq<int>, O0: seq<int>, I0: seq<LegacyInfo>,
                   P1: seq<int>, C1: seq<seq<nat>>, D1: seq<int>, O1: seq<int>, I1: seq<LegacyInfo>,
                   S0: seq<int>, b: Builder, seen: seq<TraceRecord>, at1: int)
    requires Conserved(P0, C0, D0, O0) && |I0| == |P0| && Tracks(P0, I0, O0, S0, b, seen) && seen != []
    requires OnShelf(shelf, traceKeys, P0, I0, D0, C0, seen)
    requires Conserved(P1, C1, D1, O1) && Target(P0, b.appendTrace, b.grew).Ok?
    requires var q := Target(P0, b.appendTrace, b.grew).value;
             && P1 == P0 + [q] && I1 == I0 + [Last(seen).info] && O1 == O0 + [Tick]
             && Raised(P0, D0, D1[..|P0|], q, Tick) && at1 == (if q == -1 then |P0| else q)
    ensures Collected(P1, I1, O1, seen, Last(seen).time - S0[0])
    ensures ReadyToFile(shelf, traceKeys, P1, I1, D1, C1, at1, b.prevNesting, seen)
  {
    Completed(P0, I0, O0, P1, I1, O1, S0, b, seen);
    if Nested(seen) {
      PlaceShape(P0, b, seen);
      FilingTop(P1, at1, b.prevNesting);
      ShelfHang(shelf, traceKeys, P0, C0, D0, O0, I0, P1, C1, D1, O1, I1, S0, b, seen, Tick);
    }
  }

  /** The flush's `add_new_trace` files the last trace, after which the shelf holds every
      top-level trace as `FiledTops` says. */
  lemma FileFinal(sh0: map<string, Entry>, tk0: map<string, int>, sh1: map<string, Entry>, tk1: map<string, int>,
                  parent: seq<int>, info: seq<LegacyInfo>, dur: seq<int>, children: seq<seq<nat>>, at: int,
                  prevNesting: int, seen: seq<TraceRecord>)
    requires Nested(seen) && ReadyToFile(sh0, tk0, parent, info, dur, children, at, prevNesting, seen)
    requires var p := Filing(parent, at, prevNesting).value;
             && sh1 == sh0[Key(info[p]) := Stored(Snapshot(info, dur, children, p))]
             && tk1 == tk0[Key(info[p]) := dur[p]]
    ensures FiledTops(sh1, tk1, parent, info, dur, children)
  {
    var o := Open(seen);
    ShelvesFile(sh0, tk0, Tops(parent, info, o), info, dur, children, o);
    FiledLatest(sh1, tk1, parent, info, dur, children);
  }

  /** Every matched line keeps `OnShelf`: the waiting line joins the open trace, and a line
      back at nesting 1 files that trace, the latest top-level one, and opens the next. */
  lemma ShelfStep(sh0: map<string, Entry>, tk0: map<string, int>, sh1: map<string, Entry>, tk1: map<string, int>,
                  P0: seq<int>, C0: seq<seq<nat>>, D0: seq<int>, O0: seq<int>, I0: seq<LegacyInfo>,
                  P1: seq<int>, C1: seq<seq<nat>>, D1: seq<int>, O1: seq<int>, I1: seq<LegacyInfo>,
                  S0: seq<int>, b: Builder, seen: seq<TraceRecord>, rec: TraceRecord, at1: int)
    requires Conserved(P0, C0, D0, O0) && |I0| == |P0| && Tracks(P0, I0, O0, S0, b, seen)
    requires Nested(seen + [rec]) && OnShelf(sh0, tk0, P0, I0, D0, C0, seen)
    requires Conserved(P1, C1, D1, O1) && |I1| == |P1| && Forward(C1) && -1 <= at1 < |P1|
    requires seen == [] ==> P1 == P0 && C1 == C0 && D1 == D0 && I1 == I0
    requires seen != [] ==>
               && Target(P0, b.appendTrace, b.grew).Ok?
               && var q := Target(P0, b.appendTrace, b.grew).value;
                  && P1 == P0 + [q] && I1 == I0 + [Last(seen).info]
                  && Raised(P0, D0, D1[..|P0|], q, rec.time - Last(seen).time)
                  && at1 == (if q == -1 then |P0| else q)
    requires rec.nesting <= b.prevNesting && rec.nesting == 1 && Filing(P1, at1, b.prevNesting).Some? ==>
               var p := Filing(P1, at1, b.prevNesting).value;
               && sh1 == sh0[Key(I1[p]) := Stored(Snapshot(I1, D1, C1, p))]
               && tk1 == tk0[Key(I1[p]) := D1[p]]
    requires !(rec.nesting <= b.prevNesting && rec.nesting == 1 && Filing(P1, at1, b.prevNesting).Some?) ==>
               sh1 == sh0 && tk1 == tk0
    ensures OnShelf(sh1, tk1, P1, I1, D1, C1, seen + [rec])
  {
    if seen == [] {
      assert 1 <= (seen + [rec])[0].nesting <= Prior(seen + [rec], 0) + 1;
      assert seen + [rec] == [rec];
      ShelfFirst(sh0, tk0, P1, I1, D1, C1, rec);
    } else {
      NestedPrefix(seen, rec);
      ShelfHang(sh0, tk0, P0, C0, D0, O0, I0, P1, C1, D1, O1, I1, S0, b, seen, rec.time - Last(seen).time);
      ShelfNext(sh0, tk0, sh1, tk1, P1, C1, D1, I1, seen, rec, at1, b.prevNesting);
    }
  }

  /** The first matched line files nothing and opens the first trace. */
  lemma ShelfFirst(shelf: map<string, Entry>, traceKeys: map<string, int>,
                   P1: seq<int>, I1: seq<LegacyInfo>, D1: seq<int>, C1: seq<seq<nat>>, rec: TraceRecord)
    requires OnShelf(shelf, traceKeys, P1, I1, D1, C1, [])
    ensures OnShelf(shelf, traceKeys, P1, I1, D1, C1, [rec])
  {
    assert Open([]) == 0 && Open([rec]) == 0;
  }

  /** A later line files the open trace, which becomes the latest with its key, exactly when
      it is back at nesting 1, and then opens the next trace at the new node. */
  lemma ShelfNext(sh0: map<string, Entry>, tk0: map<string, int>, sh1: map<string, Entry>, tk1: map<string, int>,
                  P1: seq<int>, C1: seq<seq<nat>>, D1: seq<int>, I1: seq<LegacyInfo>,
                  seen: seq<TraceRecord>, rec: TraceRecord, at1: int, prevNesting: int)
    requires seen != [] && Nested(seen) && 1 <= rec.nesting <= Last(seen).nesting + 1 && prevNesting == Last(seen).nesting
    requires Links(P1) && |P1| == |seen| && |I1| == |P1| && -1 <= at1 < |P1| && Forward(C1)
    requires var o := Open(seen);
             && o < |P1| && Shelves(sh0, tk0, Tops(P1, I1, o), I1, D1, C1)
             && Filing(P1, at1, prevNesting) == Some(o)
             && Tops(P1, I1, |P1|) == Tops(P1, I1, o)[Key(I1[o]) := o]
    requires rec.nesting <= prevNesting && rec.nesting == 1 && Filing(P1, at1, prevNesting).Some? ==>
               var p := Filing(P1, at1, prevNesting).value;
               && sh1 == sh0[Key(I1[p]) := Stored(Snapshot(I1, D1, C1, p))]
               && tk1 == tk0[Key(I1[p]) := D1[p]]
    requires !(rec.nesting <= prevNesting && rec.nesting == 1 && Filing(P1, at1, prevNesting).Some?) ==>
               sh1 == sh0 && tk1 == tk0
    ensures OnShelf(sh1, tk1, P1, I1, D1, C1, seen + [rec])
  {
    var all, n, o := seen + [rec], |seen|, Open(seen);
    assert all[n] == rec;
    LatestPrefix(seen, rec, n, 1);
    if rec.nesting == 1 {
      assert 1 <= seen[n - 1].nesting <= Prior(seen, n - 1) + 1;
      assert sh1 == sh0[Key(I1[o]) := Stored(Snapshot(I1, D1, C1, o))] && tk1 == tk0[Key(I1[o]) := D1[o]];
      ShelvesFile(sh0, tk0, Tops(P1, I1, o), I1, D1, C1, o);
      assert Open(all) == n;
      assert Shelves(sh1, tk1, Tops(P1, I1, Open(all)), I1, D1, C1);
    } else {
      assert sh1 == sh0 && tk1 == tk0;
      assert LatestAt(all, n + 1, 1) == LatestAt(all, n, 1);
      assert Open(all) == o;
      assert Shelves(sh1, tk1, Tops(P1, I1, Open(all)), I1, D1, C1);
    }
  }

  class LegacyCollector {
    const nodes: Arena<LegacyInfo>
    var startTime: seq<int>
    var shelf: map<string, Entry>
    var traceKeys: map<string, int>

    ghost predicate Valid()
      reads this, nodes
    {
      nodes.Valid() && Filed(shelf, traceKeys)
    }

    /** What `collect_stats` starts from: no node, no start time, and a freshly created shelf
        holding only its two reserved entries. */
    constructor ()
      ensures Valid() && fresh(nodes)
      ensures nodes.parent == [] && startTime == [] && traceKeys == map[]
    {
      nodes := new Arena<LegacyInfo>();
      startTime := [];
      shelf := map[TraceKeysKey := Reserved, WholeDurationKey := Reserved];
      traceKeys := map[];
    }

    /**
      `update_trace`. Without a previous time (the first matched line) it records the start
      time and changes nothing else. Otherwise the previous line `prevTi` becomes a node
      lasting `newTime - prevTime`, which must be positive, hung under the `Target`; every
      node above it gains that duration. The result is the target, or the new node when it
      has no parent (it then starts a new top-level trace).
    */
    method UpdateTrace(newTime: int, prevTime: Option<int>, prevTi: Option<LegacyInfo>, grew: bool,
                       appendTrace: int) returns (r: Result<int, Crash>)
      requires Valid() && -1 <= appendTrace < |nodes.parent|
      requires prevTime.Some? ==> prevTi.Some?
      modifies this, nodes
      ensures Valid() && shelf == old(shelf) && traceKeys == old(traceKeys)
      ensures prevTime.None? ==>
                && unchanged(nodes)
                && r == (if old(startTime) == [] then Ok(appendTrace) else Err(StartTwice))
                && startTime == (if old(startTime) == [] then [newTime] else old(startTime))
      ensures prevTime.Some? ==> startTime == old(startTime)
      ensures prevTime.Some? && newTime - prevTime.value <= 0 ==> r == Err(NonPositiveDuration) && unchanged(nodes)
      ensures prevTime.Some? && newTime - prevTime.value > 0 && Target(old(nodes.parent), appendTrace, grew).Err? ==>
                r == Err(Target(old(nodes.parent), appendTrace, grew).error) && unchanged(nodes)
      ensures prevTime.Some? && newTime - prevTime.value > 0 && Target(old(nodes.parent), appendTrace, grew).Ok? ==>
                var q, n, d := Target(old(nodes.parent), appendTrace, grew).value, old(|nodes.parent|), newTime - prevTime.value;
                && nodes.parent == old(nodes.parent) + [q]
                && nodes.info == old(nodes.info) + [prevTi.value]
                && nodes.own == old(nodes.own) + [d]
                && nodes.duration[n] == d
                && Raised(old(nodes.parent), old(nodes.duration), nodes.duration[..n], q, d)
                && r == Ok(if q == -1 then n else q)
    {
      if prevTime.None? {
        r := if startTime == [] then Ok(appendTrace) else Err(StartTwice);
        if startTime == [] {
          startTime := [newTime];
        }
        return;
      }
      var duration := newTime - prevTime.value;
      if duration <= 0 {
        return Err(NonPositiveDuration);
      }
      r := Hang(duration, prevTi.value, grew, appendTrace);
    }

    /** The second half of `update_trace`: a node for `ti` lasting `d`, hung under the
        `Target`; the shelf and the start time stay as they are. */
    method Hang(d: int, ti: LegacyInfo, grew: bool, appendTrace: int) returns (r: Result<int, Crash>)
      requires Valid() && -1 <= appendTrace < |nodes.parent| && d > 0
      modifies nodes
      ensures Valid()
      ensures Target(old(nodes.parent), appendTrace, grew).Err? ==>
                r == Err(Target(old(nodes.parent), appendTrace, grew).error) && unchanged(nodes)
      ensures Target(old(nodes.parent), appendTrace, grew).Ok? ==>
                var q, n := Target(old(nodes.parent), appendTrace, grew).value, old(|nodes.parent|);
                && nodes.parent == old(nodes.parent) + [q]
                && nodes.info == old(nodes.info) + [ti]
                && nodes.own == old(nodes.own) + [d]
                && nodes.duration[n] == d
                && Raised(old(nodes.parent), old(nodes.duration), nodes.duration[..n], q, d)
                && r == Ok(if q == -1 then n else q)
    {
      var target := FindTarget(appendTrace, grew);
      if target.Err? {
        return Err(target.error);
      }
      var n := nodes.AddNode(d, ti, target.value);
      r := Ok(if target.value == -1 then n else target.value);
    }

    /** Where `update_trace` hangs the new node: `appendTrace`, or after a nesting increase
        its last child, read from the children lists. */
    method FindTarget(appendTrace: int, grew: bool) returns (r: Result<int, Crash>)
      requires Valid() && -1 <= appendTrace < |nodes.parent|
      ensures r == Target(nodes.parent, appendTrace, grew)
    {
      if !grew {
        return Ok(appendTrace);
      }
      if appendTrace == -1 {
        return Err(NoTrace);
      }
      LastOfChildren(nodes.parent, appendTrace, |nodes.parent|);
      var kids := nodes.children[appendTrace];
      r := if kids == [] then Err(NoSubtrace) else Ok(kids[|kids| - 1]);
    }

    /** `parent_trace`: follows `levels` parent links up from `trace`; `None` stands for the
        exception raised when a link is followed from no trace. */
    method ParentTrace(trace: int, levels: int) returns (r: Option<int>)
      requires Valid() && -1 <= trace < |nodes.parent|
      ensures r == Up(nodes.parent, trace, Clamp(levels))
    {
      var t := trace;
      var k := 0;
      while k < levels
        invariant 0 <= k <= Clamp(levels) && -1 <= t < |nodes.parent|
        invariant Up(nodes.parent, trace, Clamp(levels)) == Up(nodes.parent, t, Clamp(levels) - k)
      {
        if t == -1 {
          return None;
        }
        t := nodes.parent[t];
        k := k + 1;
      }
      r := Some(t);
    }

    /**
      `add_new_trace`: files the node `prevNesting - 2` levels above `appendTrace` in the
      shelf under its key, and its duration in `traceKeys` (a repeated key overwrites the
      earlier entry), then checks that the shelf holds two entries more than `traceKeys`,
      which fails exactly when the key is a reserved name.
    */
    method AddNewTrace(prevNesting: int, appendTrace: int) returns (r: Result<nat, Crash>)
      requires Valid() && -1 <= appendTrace < |nodes.parent|
      modifies this
      ensures startTime == old(startTime)
      ensures Filing(nodes.parent, appendTrace, prevNesting).None? ==>
                r == Err(NoTrace) && shelf == old(shelf) && traceKeys == old(traceKeys)
      ensures Filing(nodes.parent, appendTrace, prevNesting).Some? ==>
                var p := Filing(nodes.parent, appendTrace, prevNesting).value;
                var key := Key(nodes.info[p]);
                && shelf == old(shelf)[key := Stored(nodes.Stored(p))]
                && traceKeys == old(traceKeys)[key := nodes.duration[p]]
                && r == (if IsReserved(key) then Err(ReservedKey) else Ok(p))
      ensures r.Ok? ==> Valid()
    {
      var p := ParentTrace(appendTrace, prevNesting - 2);
      if p.None? || p.value == -1 {
        r := Err(NoTrace);
      } else {
        var i := p.value;
        assert Filing(nodes.parent, appendTrace, prevNesting) == Some(i);
        var filed := File(i);
        r := if filed then Ok(i) else Err(ReservedKey);
      }
    }

    /** The filing step of `add_new_trace`: node `i`'s snapshot goes on the shelf under its
        key and its duration in `traceKeys`; the count check that follows passes exactly when
        the key is not reserved. */
    method File(i: nat) returns (filed: bool)
      requires Valid() && i < |nodes.parent|
      modifies this
      ensures startTime == old(startTime)
      ensures var key := Key(nodes.info[i]);
              && shelf == old(shelf)[key := Stored(nodes.Stored(i))]
              && traceKeys == old(traceKeys)[key := nodes.duration[i]]
              && (filed <==> !IsReserved(key))
      ensures filed ==> Valid()
    {
      var key := Key(nodes.info[i]);
      var t := nodes.Stored(i);
      SnapshotConserves(nodes.parent, nodes.children, nodes.duration, nodes.own, nodes.info, i);
      FileCount(shelf, traceKeys, key, Stored(t), nodes.duration[i]);
      FileMore(shelf, traceKeys, key, t, nodes.duration[i]);
      shelf := shelf[key := Stored(t)];
      traceKeys := traceKeys[key := nodes.duration[i]];
      filed := |shelf| == |traceKeys| + 2;
    }
  
    /** The `if nesting <= prevNesting` block of `collect_stats`: back at nesting 1 it files
        the current trace as `add_new_trace` does; otherwise the shelf stays as it is. */
    method Settle(appendTrace: int, nesting: int, prevNesting: int) returns (r: Result<int, Crash>)
      requires Valid() && -1 <= appendTrace < |nodes.parent|
      modifies this
      ensures startTime == old(startTime)
      ensures r == Settled(nodes.parent, nodes.info, appendTrace, nesting, prevNesting)
      ensures r.Ok? ==> Valid() && -1 <= r.value < |nodes.parent|
      ensures nesting <= prevNesting && nesting == 1 && Filing(nodes.parent, appendTrace, prevNesting).Some? ==>
                var p := Filing(nodes.parent, appendTrace, prevNesting).value;
                && shelf == old(shelf)[Key(nodes.info[p]) := Stored(nodes.Stored(p))]
                && traceKeys == old(traceKeys)[Key(nodes.info[p]) := nodes.duration[p]]
      ensures !(nesting <= prevNesting && nesting == 1 && Filing(nodes.parent, appendTrace, prevNesting).Some?) ==>
                shelf == old(shelf) && traceKeys == old(traceKeys)
    {
      r := Ok(appendTrace);
      if nesting <= prevNesting {
        if nesting == 1 {
          var filed := AddNewTrace(prevNesting, appendTrace);
          if filed.Err? {
            return Err(filed.error);
          }
          r := Ok(-1);
        } else {
          var up := ParentTrace(appendTrace, prevNesting - nesting);
          if up.None? {
            return Err(NoTrace);
          }
          r := Ok(up.value);
        }
      }
    }

    /**
      One matched line of `collect_stats`: the nesting check, `update_trace` for the
      previous line, the nesting checks, and the new loop variables. The line joins `seen`;
      a nesting jump and a clock that does not move forward end the run, and a `Steady` line
      never does.
    */
    method Feed(b: Builder, rec: TraceRecord, ghost seen: seq<TraceRecord>) returns (r: Result<Builder, Crash>)
      requires Valid() && Tracks(nodes.parent, nodes.info, nodes.own, startTime, b, seen)
      requires OnShelf(shelf, traceKeys, nodes.parent, nodes.info, nodes.duration, nodes.children, seen)
      modifies this, nodes
      ensures nodes.Valid()
      ensures r.Ok? ==> Valid() && Tracks(nodes.parent, nodes.info, nodes.own, startTime, r.value, seen + [rec])
      ensures r.Ok? ==> OnShelf(shelf, traceKeys, nodes.parent, nodes.info, nodes.duration, nodes.children, seen + [rec])
      ensures rec.nesting > b.prevNesting + 1 ==> r == Err(NestingJump)
      ensures rec.nesting <= b.prevNesting + 1 && seen != [] && rec.time <= Last(seen).time ==>
                r == Err(NonPositiveDuration)
      ensures Steady(seen, rec) ==> r.Ok?
    {
      if rec.nesting > b.prevNesting + 1 {
        JumpNotNested(seen, rec, b.prevNesting);
        return Err(NestingJump);
      }
      ghost var P0, I0, O0, S0 := nodes.parent, nodes.info, nodes.own, startTime;
      ghost var C0, D0 := nodes.children, nodes.duration;
      assert b.prevTime.Some? <==> seen != [];
      SteadyPlace(P0, I0, O0, S0, b, seen, rec);
      var placed := UpdateTrace(rec.time, b.prevTime, b.prevTi, b.grew, b.appendTrace);
      if placed.Err? {
        return Err(placed.error);
      }
      r := Advance(b, rec, placed.value, seen, P0, C0, D0, O0, I0, S0);
    }

    /**
      The rest of a `collect_stats` step once `update_trace` has placed the waiting line,
      `P0 … S0` being the arena and start time before it: the nesting checks, and the new
      loop variables.
    */
    method Advance(b: Builder, rec: TraceRecord, at1: int, ghost seen: seq<TraceRecord>,
                   ghost P0: seq<int>, ghost C0: seq<seq<nat>>, ghost D0: seq<int>, ghost O0: seq<int>,
                   ghost I0: seq<LegacyInfo>, ghost S0: seq<int>) returns (r: Result<Builder, Crash>)
      requires Valid() && -1 <= at1 < |nodes.parent|
      requires Conserved(P0, C0, D0, O0) && |I0| == |P0| && Tracks(P0, I0, O0, S0, b, seen)
      requires OnShelf(shelf, traceKeys, P0, I0, D0, C0, seen) && rec.nesting <= b.prevNesting + 1
      requires seen == [] ==>
                 && nodes.parent == P0 && nodes.children == C0 && nodes.duration == D0 && nodes.own == O0
                 && nodes.info == I0 && startTime == [rec.time] && at1 == b.appendTrace
      requires seen != [] ==>
                 && Target(P0, b.appendTrace, b.grew).Ok?
                 && var q := Target(P0, b.appendTrace, b.grew).value;
                    && nodes.parent == P0 + [q] && nodes.info == I0 + [Last(seen).info]
                    && nodes.own == O0 + [rec.time - Last(seen).time]
                    && Raised(P0, D0, nodes.duration[..|P0|], q, rec.time - Last(seen).time)
                    && startTime == S0 && at1 == (if q == -1 then |P0| else q)
      modifies this
      ensures r.Ok? ==> Valid() && Tracks(nodes.parent, nodes.info, nodes.own, startTime, r.value, seen + [rec])
      ensures r.Ok? ==> OnShelf(shelf, traceKeys, nodes.parent, nodes.info, nodes.duration, nodes.children, seen + [rec])
      ensures Steady(seen, rec) ==> r.Ok?
    {
      ghost var P1, C1, D1, O1, I1 := nodes.parent, nodes.children, nodes.duration, nodes.own, nodes.info;
      ghost var sh0, tk0 := shelf, traceKeys;
      SteadySettle(P0, I0, O0, P1, I1, S0, b, seen, rec, at1);
      var settled := Settle(at1, rec.nesting, b.prevNesting);
      if settled.Err? {
        return Err(settled.error);
      }
      var next := Builder(Some(rec.info), Some(rec.time), rec.nesting,
                          rec.nesting > 2 && rec.nesting > b.prevNesting, settled.value);
      ConservedForward(P1, C1, D1, O1);
      FeedKeeps(sh0, tk0, shelf, traceKeys, P0, C0, D0, O0, I0, P1, C1, D1, O1, I1, S0, startTime, b, seen, rec,
                at1, next);
      r := Ok(next);
    }

    /** One line of `collect_stats`: skipped when the pattern does not match it, a crash
        when its time or nesting does not convert, and otherwise fed. */
    method Take(b: Builder, line: string, toTicks: string -> Option<int>, toInt: string -> Option<int>,
                ghost seen: seq<TraceRecord>) returns (r: Result<Builder, Crash>)
      requires Valid() && Tracks(nodes.parent, nodes.info, nodes.own, startTime, b, seen) && Increasing(seen)
      requires OnShelf(shelf, traceKeys, nodes.parent, nodes.info, nodes.duration, nodes.children, seen)
      modifies this, nodes
      ensures nodes.Valid()
      ensures Convert(line, toTicks, toInt).Err? ==> r == Err(Convert(line, toTicks, toInt).error)
      ensures Convert(line, toTicks, toInt) == Ok([]) ==> r == Ok(b) && unchanged(this, nodes)
      ensures r.Ok? ==>
                var more := Convert(line, toTicks, toInt).value;
                && Valid() && Increasing(seen + more)
                && Tracks(nodes.parent, nodes.info, nodes.own, startTime, r.value, seen + more)
                && OnShelf(shelf, traceKeys, nodes.parent, nodes.info, nodes.duration, nodes.children, seen + more)
      ensures Convert(line, toTicks, toInt).Ok? && Convert(line, toTicks, toInt).value != [] ==>
                Steady(seen, Convert(line, toTicks, toInt).value[0]) ==> r.Ok?
    {
      var m := MatchTraceLine(line);
      if m.None? {
        assert seen + [] == seen;
        return Ok(b);
      }
      var g := m.value;
      var t := toTicks(g.time);
      if t.None? {
        return Err(BadTime);
      }
      var n := toInt(g.nesting);
      if n.None? {
        return Err(BadNesting);
      }
      var rec := TraceRecord(t.value, n.value, LegacyInfo(g.file, g.line, g.code));
      assert Convert(line, toTicks, toInt) == Ok([rec]);
      r := Feed(b, rec, seen);
      if r.Ok? {
        IncreasingMore(seen, rec);
      }
    }

    /** Line `k` of the log, taken by the loop of `collect_stats` after the lines before it. A
        crash means the log's records do not convert, or are not well-formed. */
    method Consume(b: Builder, lines: seq<string>, k: nat, toTicks: string -> Option<int>,
                   toInt: string -> Option<int>) returns (r: Result<Builder, Crash>)
      requires k < |lines| && Converted(lines[..k], toTicks, toInt).Ok?
      requires Valid() && Increasing(Converted(lines[..k], toTicks, toInt).value)
      requires Tracks(nodes.parent, nodes.info, nodes.own, startTime, b, Converted(lines[..k], toTicks, toInt).value)
      requires OnShelf(shelf, traceKeys, nodes.parent, nodes.info, nodes.duration, nodes.children,
                       Converted(lines[..k], toTicks, toInt).value)
      modifies this, nodes
      ensures nodes.Valid()
      ensures r.Ok? ==>
                && Valid() && Converted(lines[..k + 1], toTicks, toInt).Ok?
                && Increasing(Converted(lines[..k + 1], toTicks, toInt).value)
                && Tracks(nodes.parent, nodes.info, nodes.own, startTime, r.value,
                          Converted(lines[..k + 1], toTicks, toInt).value)
                && OnShelf(shelf, traceKeys, nodes.parent, nodes.info, nodes.duration, nodes.children,
                           Converted(lines[..k + 1], toTicks, toInt).value)
      ensures r.Err? ==>
                || Converted(lines, toTicks, toInt).Err?
                || (Converted(lines, toTicks, toInt).value != [] && !WellFormed(Converted(lines, toTicks, toInt).value))
    {
      ghost var seen := Converted(lines[..k], toTicks, toInt).value;
      ghost var more := Convert(lines[k], toTicks, toInt);
      ConvertedNext(lines, toTicks, toInt, k);
      ConvertedPrefix(lines, toTicks, toInt, k + 1);
      if more.Ok? && more.value != [] && Converted(lines, toTicks, toInt).Ok?
         && WellFormed(Converted(lines, toTicks, toInt).value) {
        NextInLog(lines, toTicks, toInt, k);
        WellFormedPrefix(Converted(lines, toTicks, toInt).value, seen, more.value[0]);
      }
      r := Take(b, lines[k], toTicks, toInt, seen);
    }

    /** The flush's placement: the last line's node, lasting one tick. */
    method CloseLast(b: Builder, ghost seen: seq<TraceRecord>) returns (r: Result<int, Crash>)
      requires Valid() && Tracks(nodes.parent, nodes.info, nodes.own, startTime, b, seen) && b.prevTime.Some?
      requires OnShelf(shelf, traceKeys, nodes.parent, nodes.info, nodes.duration, nodes.children, seen)
      modifies this, nodes
      ensures Valid() && shelf == old(shelf) && traceKeys == old(traceKeys) && seen != []
      ensures r != Err(EmptyLog)
      ensures r.Ok? ==>
                && -1 <= r.value < |nodes.parent| && startTime == [seen[0].time]
                && Collected(nodes.parent, nodes.info, nodes.own, seen, b.prevTime.value - startTime[0])
      ensures Nested(seen) ==> r.Ok?
      ensures r.Ok? ==>
                ReadyToFile(shelf, traceKeys, nodes.parent, nodes.info, nodes.duration, nodes.children, r.value,
                            b.prevNesting, seen)
    {
      ghost var P0, I0, O0, S0 := nodes.parent, nodes.info, nodes.own, startTime;
      ghost var C0, D0 := nodes.children, nodes.duration;
      if Nested(seen) {
        PlaceShape(P0, b, seen);
      }
      r := UpdateTrace(b.prevTime.value + Tick, b.prevTime, b.prevTi, b.grew, b.appendTrace);
      if r.Ok? {
        CloseKeeps(shelf, traceKeys, P0, C0, D0, O0, I0, nodes.parent, nodes.children, nodes.duration, nodes.own,
                   nodes.info, S0, b, seen, r.value);
      }
    }

    /** The end of `collect_stats`: the last line lasts one tick, its trace is filed, and
        the whole duration is the last time minus the first. */
    method Finish(b: Builder, ghost seen: seq<TraceRecord>) returns (r: Result<int, Crash>)
      requires Valid() && Tracks(nodes.parent, nodes.info, nodes.own, startTime, b, seen)
      requires OnShelf(shelf, traceKeys, nodes.parent, nodes.info, nodes.duration, nodes.children, seen)
      modifies this, nodes
      ensures nodes.Valid()
      ensures seen == [] <==> r == Err(EmptyLog)
      ensures r.Ok? ==> Valid() && Collected(nodes.parent, nodes.info, nodes.own, seen, r.value)
      ensures seen != [] && Nested(seen) && Unreserved(seen) ==> r.Ok?
      ensures r.Ok? && Nested(seen) ==>
                FiledTops(shelf, traceKeys, nodes.parent, nodes.info, nodes.duration, nodes.children)
    {
      if b.prevTime.None? {
        return Err(EmptyLog);
      }
      var placed := CloseLast(b, seen);
      if placed.Err? {
        return Err(placed.error);
      }
      if Nested(seen) && Unreserved(seen) {
        var p := Filing(nodes.parent, placed.value, b.prevNesting).value;
        assert !IsReserved(Key(nodes.info[p])) by {
          assert nodes.info[p] == seen[p].info;
        }
      }
      ghost var P, I, O := nodes.parent, nodes.info, nodes.own;
      ghost var C, D, sh, tk := nodes.children, nodes.duration, shelf, traceKeys;
      var filed := AddNewTrace(b.prevNesting, placed.value);
      assert nodes.parent == P && nodes.info == I && nodes.own == O;
      if Nested(seen) {
        FileFinal(sh, tk, shelf, traceKeys, P, I, D, C, placed.value, b.prevNesting, seen);
      }
      r := if filed.Err? then Err(filed.error) else Ok(b.prevTime.value - startTime[0]);
    }
  }

  /**
    `collect_stats` over the lines of a log. Lines the pattern does not match are skipped
    and a time or nesting that does not convert ends the run; a run that completes has
    built one node per matched line as `Collected` says, over strictly increasing times,
    and returns the whole duration. An empty log crashes in the flush, and a well-formed
    one always completes.
  */
  method CollectStats(lines: seq<string>, toTicks: string -> Option<int>, toInt: string -> Option<int>)
    returns (c: LegacyCollector, r: Result<int, Crash>)
    ensures fresh(c) && fresh(c.nodes) && c.nodes.Valid()
    ensures Converted(lines, toTicks, toInt).Err? ==> r.Err?
    ensures r.Ok? ==>
              && c.Valid() && Converted(lines, toTicks, toInt).Ok?
              && Increasing(Converted(lines, toTicks, toInt).value)
              && Collected(c.nodes.parent, c.nodes.info, c.nodes.own, Converted(lines, toTicks, toInt).value, r.value)
    ensures Converted(lines, toTicks, toInt) == Ok([]) ==> r == Err(EmptyLog)
    ensures Converted(lines, toTicks, toInt).Ok? && WellFormed(Converted(lines, toTicks, toInt).value) ==> r.Ok?
    ensures r.Ok? && Nested(Converted(lines, toTicks, toInt).value) ==>
              FiledTops(c.shelf, c.traceKeys, c.nodes.parent, c.nodes.info, c.nodes.duration, c.nodes.children)
  {
    c := new LegacyCollector();
    var b := Fresh;
    var k := 0;
    assert lines[..k] == [];
    while k < |lines|
      invariant 0 <= k <= |lines|
      invariant fresh(c) && fresh(c.nodes) && c.Valid()
      invariant Converted(lines[..k], toTicks, toInt).Ok? && Increasing(Converted(lines[..k], toTicks, toInt).value)
      invariant Tracks(c.nodes.parent, c.nodes.info, c.nodes.own, c.startTime, b, Converted(lines[..k], toTicks, toInt).value)
      invariant OnShelf(c.shelf, c.traceKeys, c.nodes.parent, c.nodes.info, c.nodes.duration, c.nodes.children,
                        Converted(lines[..k], toTicks, toInt).value)
    {
      var taken := c.Consume(b, lines, k, toTicks, toInt);
      if taken.Err? {
        return c, Err(taken.error);
      }
      b := taken.value;
      k := k + 1;
    }
    assert lines[..k] == lines;
    r := c.Finish(b, Converted(lines, toTicks, toInt).value);
  }

  lemma ConvertedNext(lines: seq<string>, toTicks: string -> Option<int>, toInt: string -> Option<int>, k: nat)
    requires k < |lines|
    ensures Converted(lines[..k + 1], toTicks, toInt) ==
              match Converted(lines[..k], toTicks, toInt)
              case Err(e) => Err(e)
              case Ok(rs) =>
                match Convert(lines[k], toTicks, toInt)
                case Err(e) => Err(e)
                case Ok(more) => Ok(rs + more)
  {
    assert lines[..k + 1][..k] == lines[..k];
  }

  /** A line converts to at most one record. */
  lemma ConvertOne(line: string, toTicks: string -> Option<int>, toInt: string -> Option<int>)
    ensures Convert(line, toTicks, toInt).Ok? ==> |Convert(line, toTicks, toInt).value| <= 1
  {
  }

  /** The record of a matched line follows the records before it in the whole log. */
  lemma NextInLog(lines: seq<string>, toTicks: string -> Option<int>, toInt: string -> Option<int>, k: nat)
    requires k < |lines| && Converted(lines[..k], toTicks, toInt).Ok? && Converted(lines, toTicks, toInt).Ok?
    requires Convert(lines[k], toTicks, toInt).Ok? && Convert(lines[k], toTicks, toInt).value != []
    ensures Converted(lines[..k], toTicks, toInt).value + [Convert(lines[k], toTicks, toInt).value[0]]
              <= Converted(lines, toTicks, toInt).value
  {
    ConvertOne(lines[k], toTicks, toInt);
    ConvertedNext(lines, toTicks, toInt, k);
    ConvertedPrefix(lines, toTicks, toInt, k + 1);
    PrefixOne(Converted(lines[..k], toTicks, toInt).value, Convert(lines[k], toTicks, toInt).value,
              Converted(lines[..k + 1], toTicks, toInt).value, Converted(lines, toTicks, toInt).value);
  }

  lemma PrefixOne(seen: seq<TraceRecord>, more: seq<TraceRecord>, mid: seq<TraceRecord>, whole: seq<TraceRecord>)
    requires |more| == 1 && mid == seen + more && mid <= whole
    ensures seen + [more[0]] <= whole
  {
    assert more == [more[0]];
  }

  lemma IncreasingMore(seen: seq<TraceRecord>, rec: TraceRecord)
    requires Increasing(seen) && (seen != [] ==> Last(seen).time < rec.time)
    ensures Increasing(seen + [rec])
  {
    var q := seen + [rec];
    assert forall j :: 0 <= j < |seen| ==> q[j] == seen[j];
  }

  /** A line `collect_stats` takes without failing: well-nested, later than the line
      before, and with every earlier line's key free. */
  ghost predicate Steady(seen: seq<TraceRecord>, rec: TraceRecord)
  {
    Nested(seen + [rec]) && (seen != [] ==> Last(seen).time < rec.time) && Unreserved(seen)
  }

  lemma JumpNotNested(seen: seq<TraceRecord>, rec: TraceRecord, prevNesting: int)
    requires seen == [] ==> prevNesting == 0
    requires seen != [] ==> prevNesting == Last(seen).nesting
    requires rec.nesting > prevNesting + 1
    ensures !Nested(seen + [rec]) && !Steady(seen, rec)
  {
    var q := seen + [rec];
    assert q[|seen|] == rec;
    assert Prior(q, |seen|) == (if seen == [] then 0 else Last(seen).nesting);
  }

  /** The waiting line of a steady step has a place. */
  lemma SteadyPlace(P0: seq<int>, I0: seq<LegacyInfo>, O0: seq<int>, startTime: seq<int>, b: Builder,
                    seen: seq<TraceRecord>, rec: TraceRecord)
    requires Links(P0) && |I0| == |P0| && |O0| == |P0| && Tracks(P0, I0, O0, startTime, b, seen)
    ensures seen != [] && Steady(seen, rec) ==> Target(P0, b.appendTrace, b.grew).Ok?
  {
    if seen != [] && Steady(seen, rec) {
      NestedPrefix(seen, rec);
      PlaceShape(P0, b, seen);
    }
  }

  /** The nesting checks of a steady step pass. */
  lemma SteadySettle(P0: seq<int>, I0: seq<LegacyInfo>, O0: seq<int>, P1: seq<int>, I1: seq<LegacyInfo>,
                     startTime: seq<int>, b: Builder, seen: seq<TraceRecord>, rec: TraceRecord, at1: int)
    requires Links(P0) && |I0| == |P0| && |O0| == |P0| && Tracks(P0, I0, O0, startTime, b, seen)
    requires rec.nesting <= b.prevNesting + 1
    requires seen == [] ==> P1 == P0 && I1 == I0 && at1 == b.appendTrace
    requires seen != [] ==>
               && Target(P0, b.appendTrace, b.grew).Ok?
               && P1 == P0 + [Target(P0, b.appendTrace, b.grew).value]
               && I1 == I0 + [Last(seen).info]
               && at1 == (if Target(P0, b.appendTrace, b.grew).value == -1 then |P0|
                          else Target(P0, b.appendTrace, b.grew).value)
    requires Links(P1) && |I1| == |P1| && -1 <= at1 < |P1|
    ensures Steady(seen, rec) ==> Settled(P1, I1, at1, rec.nesting, b.prevNesting).Ok?
  {
    if !Steady(seen, rec) {
    } else if seen == [] {
      assert (seen + [rec])[0] == rec && Prior(seen + [rec], 0) == 0;
    } else {
      NestedPrefix(seen, rec);
      PlaceShape(P0, b, seen);
      UnreservedInfo(I0, seen, I1);
      SettledShape(P1, I1, at1, rec.nesting, b.prevNesting);
    }
  }

  /** The nodes' trace infos are the lines' own, so none has a reserved key. */
  lemma UnreservedInfo(I0: seq<LegacyInfo>, seen: seq<TraceRecord>, I1: seq<LegacyInfo>)
    requires seen != [] && |I0| + 1 == |seen| && Unreserved(seen)
    requires forall j :: 0 <= j < |I0| ==> I0[j] == seen[j].info
    requires I1 == I0 + [Last(seen).info]
    ensures forall x :: 0 <= x < |I1| ==> !IsReserved(Key(I1[x]))
  {
    assert forall x :: 0 <= x < |I1| ==> I1[x] == seen[x].info;
  }

  /** Every matched line keeps `Tracks`. */
  lemma TracksNext(P0: seq<int>, I0: seq<LegacyInfo>, O0: seq<int>, S0: seq<int>,
                   P1: seq<int>, I1: seq<LegacyInfo>, O1: seq<int>, S1: seq<int>,
                   b: Builder, seen: seq<TraceRecord>, rec: TraceRecord, at1: int, next: Builder)
    requires Links(P0) && |I0| == |P0| && |O0| == |P0| && Tracks(P0, I0, O0, S0, b, seen)
    requires rec.nesting <= b.prevNesting + 1
    requires seen == [] ==> P1 == P0 && I1 == I0 && O1 == O0 && S1 == [rec.time] && at1 == b.appendTrace
    requires seen != [] ==>
               && Target(P0, b.appendTrace, b.grew).Ok?
               && P1 == P0 + [Target(P0, b.appendTrace, b.grew).value]
               && I1 == I0 + [Last(seen).info] && O1 == O0 + [rec.time - Last(seen).time] && S1 == S0
               && at1 == (if Target(P0, b.appendTrace, b.grew).value == -1 then |P0|
                          else Target(P0, b.appendTrace, b.grew).value)
    requires Links(P1) && |I1| == |P1| && |O1| == |P1| && -1 <= at1 < |P1|
    requires Settled(P1, I1, at1, rec.nesting, b.prevNesting) == Ok(next.appendTrace)
    requires -1 <= next.appendTrace < |P1|
    requires next == Builder(Some(rec.info), Some(rec.time), rec.nesting,
                             rec.nesting > 2 && rec.nesting > b.prevNesting, next.appendTrace)
    ensures Tracks(P1, I1, O1, S1, next, seen + [rec])
  {
    if seen == [] {
      assert seen + [rec] == [rec];
      TracksFirst(P1, I1, O1, S1, rec, next);
    } else {
      TracksStep(P0, I0, O0, P1, I1, O1, S1, b, seen, rec, next);
    }
  }

  /** The first matched line only starts the clock; it waits with no trace to hang from. */
  lemma TracksFirst(P1: seq<int>, I1: seq<LegacyInfo>, O1: seq<int>, startTime: seq<int>, rec: TraceRecord, next: Builder)
    requires P1 == [] && I1 == [] && O1 == [] && startTime == [rec.time] && rec.nesting <= 1
    requires Settled(P1, I1, -1, rec.nesting, 0) == Ok(next.appendTrace)
    requires next == Builder(Some(rec.info), Some(rec.time), rec.nesting,
                             rec.nesting > 2 && rec.nesting > 0, next.appendTrace)
    ensures Tracks(P1, I1, O1, startTime, next, [rec])
  {
    assert Links(P1);
    assert Prior([rec], 0) == 0;
    if rec.nesting <= 0 {
      assert rec.nesting == 0;
    }
    assert next.appendTrace == -1;
  }

  /** Every later line keeps `Tracks`. */
  lemma TracksStep(P0: seq<int>, I0: seq<LegacyInfo>, O0: seq<int>, P1: seq<int>, I1: seq<LegacyInfo>, O1: seq<int>,
                   startTime: seq<int>, b: Builder, seen: seq<TraceRecord>, rec: TraceRecord, next: Builder)
    requires Links(P0) && |I0| == |P0| && |O0| == |P0| && seen != [] && Tracks(P0, I0, O0, startTime, b, seen)
    requires Target(P0, b.appendTrace, b.grew).Ok? && P1 == P0 + [Target(P0, b.appendTrace, b.grew).value]
    requires Links(P1) && I1 == I0 + [Last(seen).info] && O1 == O0 + [rec.time - Last(seen).time]
    requires var q := Target(P0, b.appendTrace, b.grew).value;
             Settled(P1, I1, if q == -1 then |P0| else q, rec.nesting, b.prevNesting) == Ok(next.appendTrace)
    requires -1 <= next.appendTrace < |P1|
    requires next == Builder(Some(rec.info), Some(rec.time), rec.nesting,
                             rec.nesting > 2 && rec.nesting > b.prevNesting, next.appendTrace)
    ensures Tracks(P1, I1, O1, startTime, next, seen + [rec])
  {
    FollowsStep(P0, I0, O0, P1, I1, O1, startTime, b, seen, rec, next);
    if Nested(seen + [rec]) {
      NestedPrefix(seen, rec);
      ShapeStep(P0, P1, I1, b, seen, rec, next);
    }
  }

  lemma NestedPrefix(seen: seq<TraceRecord>, rec: TraceRecord)
    requires Nested(seen + [rec]) && seen != []
    ensures Nested(seen) && 1 <= rec.nesting <= Last(seen).nesting + 1 && Last(seen).nesting >= 1
  {
    var q := seen + [rec];
    forall j | 0 <= j < |seen| ensures 1 <= seen[j].nesting <= Prior(seen, j) + 1 {
      assert q[j] == seen[j] && Prior(q, j) == Prior(seen, j);
    }
    assert q[|seen|] == rec && Prior(q, |seen|) == Last(seen).nesting;
  }

  /** `update_trace` of a later line records the previous one as the next node. */
  lemma FollowsStep(P0: seq<int>, I0: seq<LegacyInfo>, O0: seq<int>, P1: seq<int>, I1: seq<LegacyInfo>, O1: seq<int>,
                    startTime: seq<int>, b: Builder, seen: seq<TraceRecord>, rec: TraceRecord, next: Builder)
    requires |I0| == |P0| && |O0| == |P0| && seen != [] && Follows(P0, I0, O0, startTime, b, seen)
    requires |P1| == |P0| + 1 && I1 == I0 + [Last(seen).info] && O1 == O0 + [rec.time - Last(seen).time]
    requires next.prevTi == Some(rec.info) && next.prevTime == Some(rec.time) && next.prevNesting == rec.nesting
    ensures Follows(P1, I1, O1, startTime, next, seen + [rec])
  {
    SumAppend(O0, rec.time - Last(seen).time);
    var q := seen + [rec];
    assert forall j :: 0 <= j < |seen| ==> q[j] == seen[j];
  }

  /** The flush of the waiting line completes the run. */
  lemma Completed(P0: seq<int>, I0: seq<LegacyInfo>, O0: seq<int>, P1: seq<int>, I1: seq<LegacyInfo>, O1: seq<int>,
                  startTime: seq<int>, b: Builder, seen: seq<TraceRecord>)
    requires Links(P0) && |I0| == |P0| && |O0| == |P0| && seen != [] && -1 <= b.appendTrace < |P0|
    requires Follows(P0, I0, O0, startTime, b, seen) && (Nested(seen) ==> Shaped(P0, b, seen))
    requires Target(P0, b.appendTrace, b.grew).Ok? && P1 == P0 + [Target(P0, b.appendTrace, b.grew).value]
    requires Links(P1) && I1 == I0 + [Last(seen).info] && O1 == O0 + [Tick]
    ensures Collected(P1, I1, O1, seen, Last(seen).time - startTime[0])
  {
    SumAppend(O0, Tick);
    if Nested(seen) {
      PlaceShape(P0, b, seen);
      ParentsLast(P0, seen);
    }
  }

  /** The loop variables after a well-nested line keep the tree shaped. */
  lemma ShapeStep(P0: seq<int>, P1: seq<int>, I1: seq<LegacyInfo>, b: Builder, seen: seq<TraceRecord>,
                  rec: TraceRecord, next: Builder)
    requires Links(P0) && seen != [] && |P0| + 1 == |seen| && -1 <= b.appendTrace < |P0|
    requires b.prevNesting == Last(seen).nesting && Nested(seen + [rec]) && Shaped(P0, b, seen)
    requires Target(P0, b.appendTrace, b.grew).Ok? && P1 == P0 + [Target(P0, b.appendTrace, b.grew).value]
    requires Links(P1) && |I1| == |P1|
    requires var q := Target(P0, b.appendTrace, b.grew).value;
             Settled(P1, I1, if q == -1 then |P0| else q, rec.nesting, b.prevNesting) == Ok(next.appendTrace)
    requires next.prevNesting == rec.nesting && next.grew == (rec.nesting > 2 && rec.nesting > b.prevNesting)
    ensures -1 <= next.appendTrace < |P1|
    ensures Shaped(P1, next, seen + [rec])
  {
    NestedPrefix(seen, rec);
    PlaceShape(P0, b, seen);
    DepthsMatchMore(P1, seen, rec);
    var q := Target(P0, b.appendTrace, b.grew).value;
    var at1 := if q == -1 then |P0| else q;
    AppendShape(P1, I1, at1, rec.nesting, b.prevNesting, next);
    ParentsMore(P0, seen, rec);
    AppendCaller(P1, I1, seen + [rec], at1, next);
  }

  /** The new `appendTrace` leads to the next line's caller. */
  lemma AppendCaller(P1: seq<int>, I1: seq<LegacyInfo>, all: seq<TraceRecord>, at1: int, next: Builder)
    requires Links(P1) && |I1| == |P1| && |P1| >= 1 && |P1| + 1 == |all| && -1 <= at1 < |P1|
    requires Nested(all) && ParentsMatch(P1, all)
    requires var m := |P1| - 1; at1 == (if all[m].nesting == 1 then m else P1[m])
    requires Settled(P1, I1, at1, Last(all).nesting, all[|P1| - 1].nesting) == Ok(next.appendTrace)
    requires next.grew == (Last(all).nesting > 2 && Last(all).nesting > all[|P1| - 1].nesting)
    requires -1 <= next.appendTrace < |P1|
    ensures Target(P1, next.appendTrace, next.grew) == Ok(Caller(all, |P1|))
  {
    var m := |P1| - 1;
    var p, n := all[m].nesting, Last(all).nesting;
    assert Prior(all, m + 1) == p;
    if n > p && p >= 2 {
      CallerExists(all, m);
      assert LastChild(P1, P1[m], |P1|) == Some(m);
    } else if n <= p && n != 1 {
      AncestorIsLatest(P1, all, m, p - n + 1);
    } else if n == 1 {
      NoLevelZero(all, m + 1);
    }
  }

  /** The new `appendTrace` is where the next line goes. */
  lemma AppendShape(P1: seq<int>, I1: seq<LegacyInfo>, at1: int, nesting: int, prevNesting: int, next: Builder)
    requires Links(P1) && |I1| == |P1| && |P1| >= 1 && -1 <= at1 < |P1|
    requires prevNesting >= 1 && 1 <= nesting <= prevNesting + 1
    requires Depth(P1, at1) == (if prevNesting == 1 then 1 else prevNesting - 1)
    requires prevNesting >= 2 ==> at1 == P1[|P1| - 1]
    requires Settled(P1, I1, at1, nesting, prevNesting) == Ok(next.appendTrace)
    requires next.prevNesting == nesting && next.grew == (nesting > 2 && nesting > prevNesting)
    ensures -1 <= next.appendTrace < |P1|
    ensures next.grew ==>
              && next.appendTrace >= 0 && P1[|P1| - 1] == next.appendTrace
              && Depth(P1, next.appendTrace) + 2 == next.prevNesting
    ensures !next.grew ==> Depth(P1, next.appendTrace) + 1 == next.prevNesting
  {
    if nesting <= prevNesting && nesting != 1 {
      UpIsAncestor(P1, at1, prevNesting - nesting);
    }
  }

}
