/**
  The trace node object of both versions, as an arena of nodes, and its stored form.

  `Arena.AddNode` is the constructor of `_CmakeTrace` (and of the older `CmakeTrace`)
  together with the caller's append to the parent's children list: the new node gets
  its duration, and the walk up the parent links adds that duration to every node above.
  `Tree` is `_StoredTrace`, the shape a trace is persisted in and reported from.
*/
module TraceArena {
  import opened Forest

  /** One tick is the flush's `10E-7` seconds, the unit every duration is counted in. */
  const Tick := 1

  datatype Tree<T> = Tree(info: T, duration: int, subtraces: seq<Tree<T>>)

  /** `sum(t.duration for t in ts)`. */
  function SumDurations<T>(ts: seq<Tree<T>>): int
  {
    if ts == [] then 0 else SumDurations(ts[..|ts| - 1]) + ts[|ts| - 1].duration
  }

  /** Every stored node lasts at least as long as its subtraces together. */
  ghost predicate Balanced<T>(t: Tree<T>)
  {
    && t.duration >= SumDurations(t.subtraces)
    && forall k :: 0 <= k < |t.subtraces| ==> Balanced(t.subtraces[k])
  }

  /** `store_trace`: the node and, recursively, its subtraces, as values. */
  function Snapshot<T>(info: seq<T>, dur: seq<int>, children: seq<seq<nat>>, i: nat): Tree<T>
    requires |info| == |children| && |dur| == |children| && i < |children| && Forward(children)
    decreases |children| - i
  {
    Tree(info[i], dur[i],
         seq(|children[i]|, k requires 0 <= k < |children[i]| => Snapshot(info, dur, children, children[i][k])))
  }

  /** `[store_trace(t) for t in roots]`. */
  function StoredForest<T>(info: seq<T>, dur: seq<int>, children: seq<seq<nat>>, roots: seq<nat>): (ts: seq<Tree<T>>)
    requires |info| == |children| && |dur| == |children| && Forward(children)
    requires forall k :: 0 <= k < |roots| ==> roots[k] < |children|
    ensures |ts| == |roots|
  {
    seq(|roots|, k requires 0 <= k < |roots| => Snapshot(info, dur, children, roots[k]))
  }

  lemma {:induction false} SumDurationsAt<T>(ts: seq<Tree<T>>, dur: seq<int>, cs: seq<nat>)
    requires |ts| == |cs|
    requires forall k :: 0 <= k < |cs| ==> cs[k] < |dur| && ts[k].duration == dur[cs[k]]
    ensures SumDurations(ts) == SumAt(dur, cs)
  {
    if cs != [] {
      SumDurationsAt(ts[..|ts| - 1], dur, cs[..|cs| - 1]);
    }
  }

  /** The stored form of a node keeps its duration, and every stored node's duration is its
      own time plus its stored subtraces' durations; so stored trees are balanced. */
  lemma {:induction false} SnapshotConserves<T>(parent: seq<int>, children: seq<seq<nat>>, dur: seq<int>,
                                                own: seq<int>, info: seq<T>, i: nat)
    requires Conserved(parent, children, dur, own) && |info| == |parent| && i < |parent|
    ensures Forward(children)
    ensures Snapshot(info, dur, children, i).duration == dur[i]
    ensures dur[i] == own[i] + SumDurations(Snapshot(info, dur, children, i).subtraces)
    ensures Balanced(Snapshot(info, dur, children, i))
    decreases |parent| - i
  {
    ConservedForward(parent, children, dur, own);
    var t := Snapshot(info, dur, children, i);
    var cs := children[i];
    forall k | 0 <= k < |cs|
      ensures cs[k] < |dur| && t.subtraces[k].duration == dur[cs[k]] && Balanced(t.subtraces[k])
    {
      SnapshotConserves(parent, children, dur, own, info, cs[k]);
    }
    SumDurationsAt(t.subtraces, dur, cs);
    DurationSplit(parent, children, dur, own, i);
  }

  /** Adding a node under `p` leaves the stored form of every node that `p` is not below
      as it was: neither its children lists nor its durations change. */
  lemma {:induction false} SnapshotOutside<T>(parent: seq<int>, children: seq<seq<nat>>, dur: seq<int>, own: seq<int>,
                                              info: seq<T>, p: int, d: int, dur1: seq<int>, ti: T, i: nat)
    requires Conserved(parent, children, dur, own) && |info| == |parent| && -1 <= p < |parent|
    requires |dur1| == |parent| + 1 && Raised(parent, dur, dur1[..|parent|], p, d)
    requires Forward(AppendChild(children, p, |parent|))
    requires i < |parent| && (p == -1 || !Below(parent, p, i))
    ensures Forward(children)
    ensures Snapshot(info + [ti], dur1, AppendChild(children, p, |parent|), i) == Snapshot(info, dur, children, i)
    decreases |parent| - i
  {
    ConservedForward(parent, children, dur, own);
    var children1 := AppendChild(children, p, |parent|);
    var cs := children[i];
    assert children1[i] == cs && dur1[i] == dur[i];
    assert cs == ChildrenOf(parent, i, |parent|);
    var t1, t := Snapshot(info + [ti], dur1, children1, i), Snapshot(info, dur, children, i);
    forall k | 0 <= k < |cs| ensures t1.subtraces[k] == t.subtraces[k] {
      var c := cs[k];
      assert parent[c] == i;
      if p != -1 && Below(parent, p, c) {
        assert Below(parent, c, i);
        BelowTrans(parent, p, c, i);
      }
      SnapshotOutside(parent, children, dur, own, info, p, d, dur1, ti, c);
    }
  }

  /** An arena of trace nodes; a node is an index into these parallel sequences. */
  class Arena<T> {
    var duration: seq<int>
    var info: seq<T>
    var parent: seq<int>
    var children: seq<seq<nat>>
    ghost var own: seq<int>

    ghost predicate Valid()
      reads this
    {
      Conserved(parent, children, duration, own) && |info| == |parent|
    }

    constructor ()
      ensures Valid()
      ensures parent == [] && children == [] && duration == [] && info == [] && own == []
    {
      duration, info, parent, children, own := [], [], [], [], [];
    }

    /**
      Creates a node with duration `d` under `p` (-1: no parent) and appends it to its
      parent's children. Walking up from `p`, every node above the new one gains `d`;
      nothing else changes.
    */
    method AddNode(d: int, ti: T, p: int) returns (n: nat)
      requires Valid() && -1 <= p < |parent| && d >= 0
      modifies this
      ensures Valid()
      ensures n == old(|parent|)
      ensures parent == old(parent) + [p] && info == old(info) + [ti] && own == old(own) + [d]
      ensures children == AppendChild(old(children), p, n)
      ensures |duration| == n + 1 && duration[n] == d
      ensures Raised(old(parent), old(duration), duration[..n], p, d)
    {
      n := |parent|;
      ghost var P, C, D, O := parent, children, duration, own;
      assert Conserved(P, C, D, O);
      RaiseAbove(d, p);
      AddPreserves(P, C, D, O, duration, p, d);
      parent, info, own, children, duration := parent + [p], info + [ti], own + [d], AppendChild(children, p, n), duration + [d];
    }

    /** The walk up from `p` that `AddNode` starts with: every node above `p`, and `p`
        itself, gains `d`; nothing else changes. */
    method RaiseAbove(d: int, p: int)
      requires Valid() && -1 <= p < |parent|
      modifies this
      ensures parent == old(parent) && children == old(children) && own == old(own) && info == old(info)
      ensures |duration| == |parent| && Raised(parent, old(duration), duration, p, d)
    {
      ghost var D := duration;
      RaiseStart(parent, D, p, d);
      var a := p;
      while a != -1
        invariant -1 <= a < |parent| && |duration| == |parent|
        invariant parent == old(parent) && children == old(children) && own == old(own) && info == old(info)
        invariant a >= 0 ==> Below(parent, p, a)
        invariant RaisedAbove(parent, D, duration, p, d, a)
        decreases a + 1
      {
        RaiseStep(parent, D, duration, p, d, a);
        duration := duration[a := duration[a] + d];
        a := parent[a];
      }
    }

    /** `store_trace(trace)` for node `i`. */
    function Stored(i: nat): Tree<T>
      reads this
      requires Valid() && i < |parent|
    {
      ConservedForward(parent, children, duration, own);
      Snapshot(info, duration, children, i)
    }
  }
}
