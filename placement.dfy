/**
  Where `_update_traces` puts the node of the previous trace line, as functions of the
  arena's parent links and trace infos, given the current parent (the cursor).

  With declared nesting the difference between the line's nesting and its predecessor's
  decides; without it (`current_nesting == 0`) the node goes next to the closest line of
  the same file among the frames walked upwards from the cursor's last child.
*/
module Placement {
  import opened Wrappers
  import opened Forest
  import opened TraceText

  datatype Failure =
    | NestingJump  // `assert nesting_diff <= 1`
    | NoSubtrace   // `parent_trace.subtraces[-1]` on an empty list
    | NoParent     // `assert parent_trace.parent_trace is not None`

  /** The parent chosen from the declared nesting difference `diff`. */
  function DeclaredParent(parent: seq<int>, cursor: nat, diff: int): Result<int, Failure>
    requires Links(parent) && cursor < |parent|
  {
    if diff == 0 then Ok(cursor)
    else if diff < 0 then
      match Up(parent, cursor, -diff)
      case Some(q) => if q >= 0 then Ok(q) else Err(NoParent)
      case None => Err(NoParent)
    else if diff == 1 then
      match LastChild(parent, cursor, |parent|)
      case Some(c) => Ok(c)
      case None => Err(NoSubtrace)
    else Err(NestingJump)
  }

  /**
    Declared placement moves the cursor by exactly `diff` levels: it stays for 0, goes up
    `-diff` existing ancestors for a negative difference, and goes to the cursor's most
    recent child for 1. It fails exactly when the difference exceeds 1, when there is no
    child to descend to, or when the cursor has fewer than `-diff` ancestors.
  */
  lemma DeclaredMeaning(parent: seq<int>, cursor: nat, diff: int)
    requires Links(parent) && cursor < |parent|
    ensures var r := DeclaredParent(parent, cursor, diff);
            && (r == Err(NestingJump) <==> diff > 1)
            && (r == Err(NoSubtrace) <==> diff == 1 && forall c :: 0 <= c < |parent| ==> parent[c] != cursor)
            && (r == Err(NoParent) <==> diff < 0 && Depth(parent, cursor) <= -diff)
            && (r.Ok? ==> 0 <= r.value < |parent| && Depth(parent, r.value) == Depth(parent, cursor) + diff)
            && (r.Ok? && diff <= 0 ==> Below(parent, cursor, r.value))
            && (r.Ok? && diff == 1 ==> parent[r.value] == cursor &&
                                       forall c :: r.value < c < |parent| ==> parent[c] != cursor)
  {
    if diff < 0 {
      UpIsAncestor(parent, cursor, -diff);
    } else if diff == 1 {
      var r := LastChild(parent, cursor, |parent|);
      if r.Some? {
        assert Depth(parent, r.value) == 1 + Depth(parent, cursor);
      }
    }
  }

  // ---------------------------------------------------------------------------
  // The file/line heuristic

  /** `insertion_trace`: the best distance so far (`None` is `sys.maxint`) and the chosen
      parent (-1 is `None`). */
  datatype Insertion = Insertion(distance: Option<nat>, target: int)

  const NoInsertion := Insertion(None, -1)

  function Abs(x: int): nat
  {
    if x < 0 then -x else x
  }

  /** Frame `f` holds a line of the previous line's file. */
  predicate SameFile(info: seq<Option<TraceInfo>>, prev: TraceInfo, f: nat)
    requires f < |info|
  {
    info[f].Some? && info[f].value.file == prev.file
  }

  function Distance(info: seq<Option<TraceInfo>>, prev: TraceInfo, f: nat): nat
    requires f < |info| && info[f].Some?
  {
    Abs(info[f].value.line - prev.line)
  }

  /** One pass of the `for` loop over the frames. */
  function Visit(parent: seq<int>, info: seq<Option<TraceInfo>>, prev: TraceInfo, f: nat, acc: Insertion): Insertion
    requires f < |parent| == |info|
  {
    if SameFile(info, prev, f) then
      var d := Distance(info, prev, f);
      if acc.distance.None? || d < acc.distance.value then Insertion(Some(d), parent[f]) else acc
    else if acc.target == -1 then Insertion(None, f)
    else acc
  }

  /** The loop over `enumerate_frames`, from frame `f` up to its top node. */
  function ScanFrom(parent: seq<int>, info: seq<Option<TraceInfo>>, prev: TraceInfo, f: int, acc: Insertion): Insertion
    requires Links(parent) && |info| == |parent| && -1 <= f < |parent|
    decreases f + 1
  {
    if f == -1 then acc else ScanFrom(parent, info, prev, parent[f], Visit(parent, info, prev, f, acc))
  }

  /** The first frame walked: the cursor's most recent child, or the cursor itself. */
  function FirstFrame(parent: seq<int>, cursor: nat): (f: nat)
    requires cursor < |parent|
    ensures f < |parent|
  {
    match LastChild(parent, cursor, |parent|)
    case Some(c) => c
    case None => cursor
  }

  function HeuristicParent(parent: seq<int>, info: seq<Option<TraceInfo>>, prev: TraceInfo, cursor: nat): int
    requires Links(parent) && |info| == |parent| && cursor < |parent|
  {
    var acc := ScanFrom(parent, info, prev, FirstFrame(parent, cursor), NoInsertion);
    if acc.target != -1 then acc.target else cursor
  }

  /** Every node that carries trace info has a parent (only the root sentinel has none). */
  ghost predicate InfoHasParent(parent: seq<int>, info: seq<Option<TraceInfo>>)
    requires |info| == |parent|
  {
    forall f :: 0 <= f < |parent| && info[f].Some? ==> parent[f] >= 0
  }

  /**
    After walking the frames of `start` above `f`: with no witness (`b == -1`) none of them
    shares the file and the target is `start` once `start` was walked; otherwise `b` is a
    walked frame of the same file at the smallest distance, strictly smaller than that of
    every walked frame deeper than `b`, and the target is its parent.
  */
  ghost predicate Tracks(parent: seq<int>, info: seq<Option<TraceInfo>>, prev: TraceInfo,
                         start: nat, f: int, acc: Insertion, b: int)
    requires Links(parent) && |info| == |parent| && start < |parent| && -1 <= f < |parent|
  {
    && -1 <= b <= start
    && (b == -1 ==>
          && acc.distance.None?
          && acc.target == (if f < start then start else -1)
          && forall g :: f < g < |parent| && Below(parent, start, g) ==> !SameFile(info, prev, g))
    && (b != -1 ==>
          && f < b && Below(parent, start, b) && SameFile(info, prev, b)
          && acc.distance == Some(Distance(info, prev, b)) && acc.target == parent[b]
          && forall g :: f < g < |parent| && Below(parent, start, g) && SameFile(info, prev, g) ==>
                           Distance(info, prev, b) <= Distance(info, prev, g) &&
                           (b < g ==> Distance(info, prev, b) < Distance(info, prev, g)))
  }

  lemma VisitTracks(parent: seq<int>, info: seq<Option<TraceInfo>>, prev: TraceInfo,
                    start: nat, f: nat, acc: Insertion, b: int) returns (b2: int)
    requires Links(parent) && |info| == |parent| && start < |parent| && f < |parent|
    requires Below(parent, start, f) && InfoHasParent(parent, info)
    requires Tracks(parent, info, prev, start, f, acc, b)
    ensures Tracks(parent, info, prev, start, parent[f], Visit(parent, info, prev, f, acc), b2)
  {
    BelowLeq(parent, start, f);
    forall g | parent[f] < g < |parent| && Below(parent, start, g) ensures f <= g {
      ChainGap(parent, start, f, g);
    }
    if SameFile(info, prev, f) && (b == -1 || Distance(info, prev, f) < Distance(info, prev, b)) {
      b2 := f;
    } else {
      b2 := b;
    }
  }

  lemma {:induction false} ScanTracks(parent: seq<int>, info: seq<Option<TraceInfo>>, prev: TraceInfo,
                                      start: nat, f: int, acc: Insertion, b: int) returns (b2: int)
    requires Links(parent) && |info| == |parent| && start < |parent| && -1 <= f < |parent|
    requires Below(parent, start, f) && InfoHasParent(parent, info)
    requires Tracks(parent, info, prev, start, f, acc, b)
    ensures Tracks(parent, info, prev, start, -1, ScanFrom(parent, info, prev, f, acc), b2)
    decreases f + 1
  {
    if f == -1 {
      b2 := b;
    } else {
      var b1 := VisitTracks(parent, info, prev, start, f, acc, b);
      assert Below(parent, f, parent[f]);
      BelowTrans(parent, start, f, parent[f]);
      b2 := ScanTracks(parent, info, prev, start, parent[f], Visit(parent, info, prev, f, acc), b1);
    }
  }

  /**
    The heuristic's choice, stated without the loop: among the frames walked (the first
    frame and all nodes above it), when some frame shares the previous line's file the
    node goes under the parent of the one at the smallest line distance, ties going to
    the innermost such frame; when none does, it goes under the first frame walked.
  */
  lemma HeuristicChoice(parent: seq<int>, info: seq<Option<TraceInfo>>, prev: TraceInfo, cursor: nat)
      returns (b: int)
    requires Links(parent) && |info| == |parent| && cursor < |parent| && InfoHasParent(parent, info)
    ensures var start, r := FirstFrame(parent, cursor), HeuristicParent(parent, info, prev, cursor);
            && (b == -1 ==>
                  && r == start
                  && forall g :: 0 <= g < |parent| && Below(parent, start, g) ==> !SameFile(info, prev, g))
            && (b != -1 ==>
                  && 0 <= b < |parent| && Below(parent, start, b) && SameFile(info, prev, b) && r == parent[b]
                  && forall g :: 0 <= g < |parent| && Below(parent, start, g) && SameFile(info, prev, g) ==>
                       Distance(info, prev, b) <= Distance(info, prev, g) &&
                       (b < g ==> Distance(info, prev, b) < Distance(info, prev, g)))
  {
    var start := FirstFrame(parent, cursor);
    forall g | start < g < |parent| && Below(parent, start, g) ensures false {
      BelowLeq(parent, start, g);
    }
    b := ScanTracks(parent, info, prev, start, start, NoInsertion, -1);
  }

  /** The heuristic always lands on a node. */
  lemma HeuristicInRange(parent: seq<int>, info: seq<Option<TraceInfo>>, prev: TraceInfo, cursor: nat)
    requires Links(parent) && |info| == |parent| && cursor < |parent| && InfoHasParent(parent, info)
    ensures 0 <= HeuristicParent(parent, info, prev, cursor) < |parent|
  {
    var b := HeuristicChoice(parent, info, prev, cursor);
  }

  /** The parent `_update_traces` appends under: the heuristic for nesting 0, otherwise the
      declared difference. */
  function PlaceParent(parent: seq<int>, info: seq<Option<TraceInfo>>, cursor: nat,
                       nesting: int, prevNesting: int, prev: TraceInfo): Result<int, Failure>
    requires Links(parent) && |info| == |parent| && cursor < |parent|
  {
    if nesting == 0 then Ok(HeuristicParent(parent, info, prev, cursor))
    else DeclaredParent(parent, cursor, nesting - prevNesting)
  }
}
