/**
  The arena in which both versions of the tool build their call trees.

  Node `i` of an arena has a parent `parent[i]`, or -1 when it has none (Python's `None`).
  A node is always created after its parent, so `parent[i] < i`. A node's `duration` is
  the sum of its own time and of its children's durations; the `own` times are ghost, as
  the program never stores them separately.
*/
module Forest {
  import opened Wrappers

  /** Every parent link points to an earlier node, or is -1. */
  ghost predicate Links(parent: seq<int>)
  {
    forall i :: 0 <= i < |parent| ==> -1 <= parent[i] < i
  }

  /** `j` is `i` or lies in the subtree of `i`; every node lies below -1. */
  ghost predicate Below(parent: seq<int>, j: int, i: int)
    requires Links(parent) && -1 <= j < |parent|
    decreases j + 1
  {
    j == i || (j >= 0 && Below(parent, parent[j], i))
  }

  /** Number of nodes on the way from `j` up to and including its top node. */
  ghost function Depth(parent: seq<int>, j: int): nat
    requires Links(parent) && -1 <= j < |parent|
    decreases j + 1
  {
    if j == -1 then 0 else 1 + Depth(parent, parent[j])
  }

  /** The node `k` parent links above `j`; `None` when the walk would leave the arena
      (following the parent of a missing node). -1 stands for "no node". */
  function Up(parent: seq<int>, j: int, k: nat): (r: Option<int>)
    requires Links(parent) && -1 <= j < |parent|
    ensures r.Some? ==> -1 <= r.value <= j
    decreases k
  {
    if k == 0 then Some(j)
    else if j == -1 then None
    else Up(parent, parent[j], k - 1)
  }

  /** The most recently created child of `q` among the first `m` nodes. */
  function LastChild(parent: seq<int>, q: int, m: nat): (r: Option<nat>)
    requires m <= |parent|
    ensures r.Some? ==> r.value < m && parent[r.value] == q
    ensures r.Some? ==> forall c :: r.value < c < m ==> parent[c] != q
    ensures r.None? ==> forall c :: 0 <= c < m ==> parent[c] != q
  {
    if m == 0 then None
    else if parent[m - 1] == q then Some(m - 1)
    else LastChild(parent, q, m - 1)
  }

  /** The children of `q` among the first `m` nodes, in creation order. */
  function ChildrenOf(parent: seq<int>, q: int, m: nat): (cs: seq<nat>)
    requires m <= |parent|
    ensures forall k :: 0 <= k < |cs| ==> cs[k] < m && parent[cs[k]] == q
  {
    if m == 0 then []
    else ChildrenOf(parent, q, m - 1) + (if parent[m - 1] == q then [m - 1] else [])
  }

  /** Sum of the durations of the children of `q` among the first `m` nodes. */
  ghost function ChildSum(parent: seq<int>, dur: seq<int>, q: int, m: nat): int
    requires m <= |parent| && m <= |dur|
  {
    if m == 0 then 0
    else ChildSum(parent, dur, q, m - 1) + (if parent[m - 1] == q then dur[m - 1] else 0)
  }

  ghost function Sum(s: seq<int>): int
  {
    if s == [] then 0 else Sum(s[..|s| - 1]) + s[|s| - 1]
  }

  /** Sum of `dur` at the listed indices. */
  ghost function SumAt(dur: seq<int>, cs: seq<nat>): int
    requires forall k :: 0 <= k < |cs| ==> cs[k] < |dur|
  {
    if cs == [] then 0 else SumAt(dur, cs[..|cs| - 1]) + dur[cs[|cs| - 1]]
  }

  /**
    The arena invariant: links point backwards, the children lists are exactly the nodes
    whose parent is that node in creation order, own times are never negative, every
    node's duration is its own time plus its children's durations, and the top-level
    durations add up to all own times.
  */
  ghost predicate Conserved(parent: seq<int>, children: seq<seq<nat>>, dur: seq<int>, own: seq<int>)
  {
    && |children| == |parent| && |dur| == |parent| && |own| == |parent|
    && Links(parent)
    && (forall i :: 0 <= i < |own| ==> own[i] >= 0)
    && (forall i :: 0 <= i < |children| ==> children[i] == ChildrenOf(parent, i, |parent|))
    && (forall i :: 0 <= i < |dur| ==> dur[i] == own[i] + ChildSum(parent, dur, i, |parent|))
    && Sum(own) == ChildSum(parent, dur, -1, |parent|)
  }

  /** Every child is created after its parent. */
  ghost predicate Forward(children: seq<seq<nat>>)
  {
    forall q, k :: 0 <= q < |children| && 0 <= k < |children[q]| ==> q < children[q][k] < |children|
  }

  // ---------------------------------------------------------------------------
  // Ancestry

  lemma {:induction false} BelowLeq(parent: seq<int>, j: int, i: int)
    requires Links(parent) && -1 <= j < |parent| && Below(parent, j, i)
    ensures i <= j
    decreases j + 1
  {
    if j != i {
      BelowLeq(parent, parent[j], i);
    }
  }

  lemma {:induction false} BelowTrans(parent: seq<int>, j: int, k: int, i: int)
    requires Links(parent) && -1 <= j < |parent| && -1 <= k < |parent|
    requires Below(parent, j, k) && Below(parent, k, i)
    ensures Below(parent, j, i)
    decreases j + 1
  {
    if j != k {
      BelowTrans(parent, parent[j], k, i);
    }
  }

  /** The nodes above a node form a chain: of two of them, the later lies below the earlier. */
  lemma {:induction false} BelowChain(parent: seq<int>, p: int, a: int, b: int)
    requires Links(parent) && -1 <= p < |parent| && -1 <= b < |parent|
    requires Below(parent, p, a) && Below(parent, p, b) && a <= b
    ensures Below(parent, b, a)
    decreases p + 1
  {
    if p != b {
      BelowLeq(parent, p, b);
      if p == a {
        BelowLeq(parent, p, b);
      } else {
        BelowChain(parent, parent[p], a, b);
      }
    }
  }

  /** The ancestors of `p` that are greater than the parent of one of them, `a`, are `a` and those after it. */
  lemma ChainGap(parent: seq<int>, p: int, a: int, i: int)
    requires Links(parent) && -1 <= p < |parent| && 0 <= a < |parent| && -1 <= i < |parent|
    requires Below(parent, p, a) && Below(parent, p, i) && parent[a] < i
    ensures a <= i
  {
    if i < a {
      BelowChain(parent, p, i, a);
      BelowLeq(parent, parent[a], i);
    }
  }

  lemma {:induction false} BelowExtend(parent: seq<int>, x: int, j: int, i: int)
    requires Links(parent) && Links(parent + [x]) && -1 <= j < |parent|
    ensures Below(parent + [x], j, i) == Below(parent, j, i)
    decreases j + 1
  {
    if j >= 0 && j != i {
      BelowExtend(parent, x, parent[j], i);
    }
  }

  /** The child of `i` on the way from `j` up to `i`. */
  ghost function PathChild(parent: seq<int>, j: int, i: int): (c: nat)
    requires Links(parent) && -1 <= j < |parent| && Below(parent, j, i) && j != i
    ensures c <= j && parent[c] == i && Below(parent, j, c)
    decreases j + 1
  {
    if parent[j] == i then j else PathChild(parent, parent[j], i)
  }

  /** A child of `i` above `j` is the path child: there is exactly one. */
  lemma PathChildUnique(parent: seq<int>, j: int, i: int, c: nat)
    requires Links(parent) && -1 <= j < |parent| && c < |parent|
    requires parent[c] == i && Below(parent, j, c)
    ensures Below(parent, j, i) && j != i && c == PathChild(parent, j, i)
  {
    assert Below(parent, c, i) by { assert Below(parent, parent[c], i); }
    BelowTrans(parent, j, c, i);
    BelowLeq(parent, j, c);
    var r := PathChild(parent, j, i);
    if c != r {
      var lo, hi := if c < r then c else r, if c < r then r else c;
      BelowChain(parent, j, lo, hi);
      assert parent[hi] == i && parent[lo] == i;
      BelowLeq(parent, i, lo);
    }
  }

  /** `Up` follows exactly `k` parent links: it succeeds when `j` has at least `k`
      nodes above it (counting the missing node -1 as the last), and the node reached lies
      `k` levels higher. */
  lemma {:induction false} UpIsAncestor(parent: seq<int>, j: int, k: nat)
    requires Links(parent) && -1 <= j < |parent|
    ensures Up(parent, j, k).Some? <==> k <= Depth(parent, j)
    ensures Up(parent, j, k).Some? ==>
              Below(parent, j, Up(parent, j, k).value) &&
              Depth(parent, Up(parent, j, k).value) + k == Depth(parent, j)
    decreases k
  {
    if k > 0 && j != -1 {
      UpIsAncestor(parent, parent[j], k - 1);
    }
  }

  lemma {:induction false} DepthExtend(parent: seq<int>, x: int, j: int)
    requires Links(parent) && Links(parent + [x]) && -1 <= j < |parent|
    ensures Depth(parent + [x], j) == Depth(parent, j)
    decreases j + 1
  {
    if j >= 0 {
      DepthExtend(parent, x, parent[j]);
    }
  }

  lemma {:induction false} UpExtend(parent: seq<int>, x: int, j: int, k: nat)
    requires Links(parent) && Links(parent + [x]) && -1 <= j < |parent|
    ensures Up(parent + [x], j, k) == Up(parent, j, k)
    decreases k
  {
    if k > 0 && j != -1 {
      UpExtend(parent, x, parent[j], k - 1);
    }
  }

  // ---------------------------------------------------------------------------
  // Sums

  lemma {:induction false} ChildSumAgree(parent: seq<int>, dur: seq<int>, parent2: seq<int>, dur2: seq<int>, q: int, m: nat)
    requires m <= |parent| && m <= |dur| && m <= |parent2| && m <= |dur2|
    requires forall c :: 0 <= c < m ==> parent[c] == parent2[c] && dur[c] == dur2[c]
    ensures ChildSum(parent, dur, q, m) == ChildSum(parent2, dur2, q, m)
  {
    if m > 0 {
      ChildSumAgree(parent, dur, parent2, dur2, q, m - 1);
    }
  }

  lemma {:induction false} ChildrenOfAgree(parent: seq<int>, parent2: seq<int>, q: int, m: nat)
    requires m <= |parent| && m <= |parent2|
    requires forall c :: 0 <= c < m ==> parent[c] == parent2[c]
    ensures ChildrenOf(parent, q, m) == ChildrenOf(parent2, q, m)
  {
    if m > 0 {
      ChildrenOfAgree(parent, parent2, q, m - 1);
    }
  }

  lemma {:induction false} LastChildAgree(parent: seq<int>, parent2: seq<int>, q: int, m: nat)
    requires m <= |parent| && m <= |parent2|
    requires forall c :: 0 <= c < m ==> parent[c] == parent2[c]
    ensures LastChild(parent, q, m) == LastChild(parent2, q, m)
  {
    if m > 0 {
      LastChildAgree(parent, parent2, q, m - 1);
    }
  }

  /** No child of `q` among the first `m` nodes: the child sum is 0. */
  lemma {:induction false} ChildSumNone(parent: seq<int>, dur: seq<int>, q: int, m: nat)
    requires m <= |parent| && m <= |dur|
    requires forall c :: 0 <= c < m ==> parent[c] != q
    ensures ChildSum(parent, dur, q, m) == 0
  {
    if m > 0 {
      ChildSumNone(parent, dur, q, m - 1);
    }
  }

  /** Adding `d` to `p` and to every node above it raises each child sum by `d` exactly
      when the summed node lies strictly above `p` and its path child is counted. */
  lemma {:induction false} ChildSumShift(parent: seq<int>, dur: seq<int>, dur1: seq<int>, p: int, d: int, q: int, m: nat)
    requires Links(parent) && |dur| == |parent| && |dur1| == |parent| && m <= |parent|
    requires -1 <= p < |parent|
    requires forall c :: 0 <= c < |parent| ==> dur1[c] == dur[c] + (if p >= 0 && Below(parent, p, c) then d else 0)
    ensures ChildSum(parent, dur1, q, m) ==
              ChildSum(parent, dur, q, m) +
              (if p >= 0 && p != q && Below(parent, p, q) && PathChild(parent, p, q) < m then d else 0)
  {
    if m > 0 {
      ChildSumShift(parent, dur, dur1, p, d, q, m - 1);
      var c := m - 1;
      if p >= 0 && parent[c] == q && Below(parent, p, c) {
        PathChildUnique(parent, p, q, c);
      }
    }
  }

  lemma SumAppend(s: seq<int>, x: int)
    ensures Sum(s + [x]) == Sum(s) + x
  {
    assert (s + [x])[..|s|] == s;
  }

  lemma SumAtAppend(dur: seq<int>, cs: seq<nat>, c: nat)
    requires forall k :: 0 <= k < |cs| ==> cs[k] < |dur|
    requires c < |dur|
    ensures SumAt(dur, cs + [c]) == SumAt(dur, cs) + dur[c]
  {
    assert (cs + [c])[..|cs|] == cs;
  }

  /** The child sum is the sum over the children list. */
  lemma {:induction false} SumAtChildren(parent: seq<int>, dur: seq<int>, q: int, m: nat)
    requires m <= |parent| && |dur| == |parent|
    ensures SumAt(dur, ChildrenOf(parent, q, m)) == ChildSum(parent, dur, q, m)
  {
    if m > 0 {
      SumAtChildren(parent, dur, q, m - 1);
      var xs := ChildrenOf(parent, q, m - 1);
      if parent[m - 1] == q {
        assert ChildrenOf(parent, q, m) == xs + [m - 1];
        SumAtAppend(dur, xs, m - 1);
      } else {
        assert ChildrenOf(parent, q, m) == xs;
      }
    }
  }

  lemma ConservedForward(parent: seq<int>, children: seq<seq<nat>>, dur: seq<int>, own: seq<int>)
    requires Conserved(parent, children, dur, own)
    ensures Forward(children)
  {
    forall q, k | 0 <= q < |children| && 0 <= k < |children[q]|
      ensures q < children[q][k] < |children|
    {
      assert children[q] == ChildrenOf(parent, q, |parent|);
    }
  }

  /** The duration of every node is its own time plus the durations in its children list. */
  lemma DurationSplit(parent: seq<int>, children: seq<seq<nat>>, dur: seq<int>, own: seq<int>, i: nat)
    requires Conserved(parent, children, dur, own) && i < |parent|
    ensures forall k :: 0 <= k < |children[i]| ==> children[i][k] < |dur|
    ensures dur[i] == own[i] + SumAt(dur, children[i])
  {
    assert children[i] == ChildrenOf(parent, i, |parent|);
    SumAtChildren(parent, dur, i, |parent|);
  }

  /** Adds `d` to `p` and to every node above it (none when `p` is -1). */
  ghost predicate Raised(parent: seq<int>, dur: seq<int>, dur1: seq<int>, p: int, d: int)
    requires Links(parent) && |dur| == |parent| && |dur1| == |parent| && -1 <= p < |parent|
  {
    forall c :: 0 <= c < |parent| ==> dur1[c] == dur[c] + (if p >= 0 && Below(parent, p, c) then d else 0)
  }

  /** Part way up the ancestor walk from `p`: the nodes above `p` that lie above `a`
      have gained `d`, all others are as before. */
  ghost predicate RaisedAbove(parent: seq<int>, dur: seq<int>, dur1: seq<int>, p: int, d: int, a: int)
    requires Links(parent) && |dur| == |parent| && |dur1| == |parent| && -1 <= p < |parent|
  {
    forall c :: 0 <= c < |parent| ==> dur1[c] == dur[c] + (if p >= 0 && Below(parent, p, c) && a < c then d else 0)
  }

  lemma RaiseStart(parent: seq<int>, dur: seq<int>, p: int, d: int)
    requires Links(parent) && |dur| == |parent| && -1 <= p < |parent|
    ensures RaisedAbove(parent, dur, dur, p, d, p)
  {
    forall c | 0 <= c < |parent| && p >= 0 && Below(parent, p, c) ensures c <= p {
      BelowLeq(parent, p, c);
    }
  }

  /** One step of the walk: raising `a` and moving to its parent keeps the walk's invariant. */
  lemma RaiseStep(parent: seq<int>, dur: seq<int>, dur1: seq<int>, p: int, d: int, a: nat)
    requires Links(parent) && |dur| == |parent| && |dur1| == |parent| && -1 <= p < |parent|
    requires a < |parent| && Below(parent, p, a) && RaisedAbove(parent, dur, dur1, p, d, a)
    ensures parent[a] >= 0 ==> Below(parent, p, parent[a])
    ensures RaisedAbove(parent, dur, dur1[a := dur1[a] + d], p, d, parent[a])
  {
    assert Below(parent, a, parent[a]);
    BelowTrans(parent, p, a, parent[a]);
    BelowLeq(parent, p, a);
    forall c | 0 <= c < |parent| && Below(parent, p, c) && parent[a] < c ensures a <= c {
      ChainGap(parent, p, a, c);
    }
  }

  /** The children table after appending a node under `p`. */
  function AppendChild(children: seq<seq<nat>>, p: int, n: nat): (cs: seq<seq<nat>>)
    requires p < |children|
    ensures |cs| == |children| + 1 && cs[|children|] == []
    ensures forall q :: 0 <= q < |children| ==> cs[q] == children[q] + (if q == p then [n] else [])
  {
    (if p >= 0 then children[p := children[p] + [n]] else children) + [[]]
  }

  /** A fresh node's duration, added to every node above it, keeps the arena conserved. */
  lemma AddPreserves(parent: seq<int>, children: seq<seq<nat>>, dur: seq<int>, own: seq<int>,
                     dur1: seq<int>, p: int, d: int)
    requires Conserved(parent, children, dur, own)
    requires -1 <= p < |parent| && d >= 0 && |dur1| == |parent|
    requires Raised(parent, dur, dur1, p, d)
    ensures Conserved(parent + [p], AppendChild(children, p, |parent|), dur1 + [d], own + [d])
  {
    var n := |parent|;
    var P', D', O' := parent + [p], dur1 + [d], own + [d];
    var C' := AppendChild(children, p, n);
    assert Links(P');
    AddKeepsChildren(parent, children, dur, own, p);
    forall i | 0 <= i < |D'| ensures D'[i] == O'[i] + ChildSum(P', D', i, |P'|)
    {
      assert i < |parent| ==> dur[i] == own[i] + ChildSum(parent, dur, i, |parent|);
      AddKeepsNode(parent, dur, own, dur1, p, d, i);
    }
    AddKeepsTop(parent, children, dur, own, dur1, p, d);
  }

  lemma AddKeepsChildren(parent: seq<int>, children: seq<seq<nat>>, dur: seq<int>, own: seq<int>, p: int)
    requires Conserved(parent, children, dur, own) && -1 <= p < |parent|
    ensures forall i :: 0 <= i <= |parent| ==>
              AppendChild(children, p, |parent|)[i] == ChildrenOf(parent + [p], i, |parent| + 1)
  {
    var n := |parent|;
    var P' := parent + [p];
    forall i | 0 <= i <= n ensures AppendChild(children, p, n)[i] == ChildrenOf(P', i, n + 1)
    {
      ChildrenOfAgree(parent, P', i, n);
      if i == n {
        ChildrenOfNone(P', n, n);
      } else {
        assert children[i] == ChildrenOf(parent, i, n);
      }
    }
  }

  lemma AddKeepsNode(parent: seq<int>, dur: seq<int>, own: seq<int>, dur1: seq<int>, p: int, d: int, i: nat)
    requires Links(parent) && |dur| == |parent| && |own| == |parent| && |dur1| == |parent|
    requires -1 <= p < |parent| && i <= |parent|
    requires i < |parent| ==> dur[i] == own[i] + ChildSum(parent, dur, i, |parent|)
    requires Raised(parent, dur, dur1, p, d)
    ensures (dur1 + [d])[i] == (own + [d])[i] + ChildSum(parent + [p], dur1 + [d], i, |parent| + 1)
  {
    var n := |parent|;
    var P', D' := parent + [p], dur1 + [d];
    assert ChildSum(P', D', i, n + 1) == ChildSum(P', D', i, n) + (if p == i then d else 0);
    ChildSumAgree(parent, dur1, P', D', i, n);
    if i == n {
      ChildSumNone(P', D', n, n);
    } else {
      ChildSumShift(parent, dur, dur1, p, d, i, n);
      var up := p >= 0 && Below(parent, p, i);
      assert dur1[i] == dur[i] + (if up then d else 0);
      if up && p != i {
        var c := PathChild(parent, p, i);
        BelowLeq(parent, p, c);
        assert ChildSum(parent, dur1, i, n) == ChildSum(parent, dur, i, n) + d;
      } else {
        assert ChildSum(parent, dur1, i, n) == ChildSum(parent, dur, i, n);
      }
    }
  }

  lemma AddKeepsTop(parent: seq<int>, children: seq<seq<nat>>, dur: seq<int>, own: seq<int>,
                    dur1: seq<int>, p: int, d: int)
    requires Conserved(parent, children, dur, own)
    requires -1 <= p < |parent| && d >= 0 && |dur1| == |parent|
    requires Raised(parent, dur, dur1, p, d)
    ensures Sum(own + [d]) == ChildSum(parent + [p], dur1 + [d], -1, |parent| + 1)
  {
    var n := |parent|;
    SumAppend(own, d);
    ChildSumAgree(parent, dur1, parent + [p], dur1 + [d], -1, n);
    ChildSumShift(parent, dur, dur1, p, d, -1, n);
    if p >= 0 {
      BelowToTop(parent, p);
      var c := PathChild(parent, p, -1);
      BelowLeq(parent, p, c);
    }
  }

  lemma {:induction false} BelowToTop(parent: seq<int>, j: int)
    requires Links(parent) && -1 <= j < |parent|
    ensures Below(parent, j, -1)
    decreases j + 1
  {
    if j >= 0 {
      BelowToTop(parent, parent[j]);
    }
  }

  lemma {:induction false} ChildrenOfNone(parent: seq<int>, q: int, m: nat)
    requires m <= |parent|
    requires forall c :: 0 <= c < m ==> parent[c] != q
    ensures ChildrenOf(parent, q, m) == []
  {
    if m > 0 {
      ChildrenOfNone(parent, q, m - 1);
    }
  }

  /** The children list ends with the most recently created child. */
  lemma {:induction false} LastOfChildren(parent: seq<int>, q: int, m: nat)
    requires m <= |parent|
    ensures var cs, r := ChildrenOf(parent, q, m), LastChild(parent, q, m);
            (cs == [] <==> r.None?) && (cs != [] ==> cs[|cs| - 1] == r.value)
  {
    if m > 0 && parent[m - 1] != q {
      LastOfChildren(parent, q, m - 1);
    }
  }

  /** Depths do not depend on the nodes created later. */
  lemma {:induction false} DepthPrefix(parent: seq<int>, m: nat, j: int)
    requires Links(parent) && m <= |parent| && -1 <= j < m
    ensures Links(parent[..m]) && Depth(parent[..m], j) == Depth(parent, j)
    decreases j + 1
  {
    if j >= 0 {
      DepthPrefix(parent, m, parent[j]);
    }
  }
}
