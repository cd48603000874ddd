/**
  `_print_traces` of the current version, as the list of report lines it prints: for
  each line, its nesting (the `[n]` of the label, one more than the indent) and the node.
  Siblings are optionally sorted by duration; a sibling loop stops at the first node
  that is too deep or below the threshold, and with `one` after the first top-level node.
*/
module Report {
  import opened TraceArena
  import opened Ordering

  /** The options `-t`, `-d`, `-s` and `-1`. */
  datatype ReportOptions = ReportOptions(threshold: real, depth: int, sortTraces: bool, one: bool)

  /** One printed line: its nesting level, and the node's trace info and duration. */
  datatype Shown<T> = Shown(level: nat, info: T, duration: int)

  function ByDuration<T>(t: Tree<T>): SortKey
  {
    Num(t.duration)
  }

  /** The siblings in the order they are considered: sorted by duration, largest first,
      with `-s`, and as stored otherwise. */
  function Arrange<T>(ts: seq<Tree<T>>, opts: ReportOptions): (r: seq<Tree<T>>)
    ensures multiset(r) == multiset(ts) && |r| == |ts|
    ensures opts.sortTraces ==> Descending(r, ByDuration)
    ensures !opts.sortTraces ==> r == ts
  {
    assert |multiset(ts)| == |ts|;
    if opts.sortTraces then SortDescSorted(ts, ByDuration); SortDesc(ts, ByDuration) else ts
  }

  /** `indent + 1 > args.depth` with a depth given. */
  predicate TooDeep(indent: nat, opts: ReportOptions)
  {
    opts.depth != 0 && indent + 1 > opts.depth
  }

  /** Not `trace.duration / whole_duration < args.threshold`. */
  predicate Heavy<T>(t: Tree<T>, opts: ReportOptions, whole: int)
    requires whole > 0
  {
    (t.duration as real) / (whole as real) >= opts.threshold
  }

  /** `print_traces_loop(traces, indent)`: every line it prints is deeper than `indent`,
      within the depth limit and at or above the threshold. */
  function Walk<T>(ts: seq<Tree<T>>, indent: nat, opts: ReportOptions, whole: int): (r: seq<Shown<T>>)
    requires whole > 0
    ensures Within(r, indent, opts, whole)
    decreases ts, 1
  {
    Siblings(Arrange(ts, opts), 0, indent, opts, whole, ts)
  }

  /** The `for trace in traces` loop from the `k`-th sibling on: it prints a sibling only
      within the depth limit and at or above the threshold, and its subtree deeper. */
  function Siblings<T>(ss: seq<Tree<T>>, k: nat, indent: nat, opts: ReportOptions, whole: int,
                       ghost orig: seq<Tree<T>>): (r: seq<Shown<T>>)
    requires whole > 0 && k <= |ss| && multiset(ss) == multiset(orig)
    ensures Within(r, indent, opts, whole)
    decreases orig, 0, |ss| - k
  {
    if k == |ss| || TooDeep(indent, opts) || !Heavy(ss[k], opts, whole) then []
    else
      assert ss[k] in multiset(orig);
      assert ss[k] in orig;
      [Shown(indent + 1, ss[k].info, ss[k].duration)]
      + Walk(ss[k].subtraces, indent + 1, opts, whole)
      + (if opts.one && indent == 0 then [] else Siblings(ss, k + 1, indent, opts, whole, orig))
  }

  /** `_print_traces(args, ..., all_traces, whole_duration)`: no printed line is deeper than
      `-d` when it is given, and none is below the threshold. */
  function PrintTraces<T>(forest: seq<Tree<T>>, opts: ReportOptions, whole: int): (r: seq<Shown<T>>)
    requires whole > 0
    ensures forall v :: v in r ==>
              && 1 <= v.level
              && (opts.depth != 0 ==> v.level <= opts.depth)
              && (v.duration as real) / (whole as real) >= opts.threshold
  {
    Walk(forest, 0, opts, whole)
  }

  /** Lines deeper than `indent`, within the depth limit and at or above the threshold. */
  ghost predicate Within<T>(vs: seq<Shown<T>>, indent: nat, opts: ReportOptions, whole: int)
    requires whole > 0
  {
    forall v :: v in vs ==>
      && indent < v.level
      && (opts.depth != 0 ==> v.level <= opts.depth)
      && (v.duration as real) / (whole as real) >= opts.threshold
  }

  /** A lower threshold prints every line a higher one prints: the order of the siblings does
      not depend on the threshold, and a sibling loop that goes on under the higher threshold
      goes on under the lower one. */
  lemma {:induction false} WalkThreshold<T>(ts: seq<Tree<T>>, indent: nat, lo: ReportOptions, hi: ReportOptions,
                                            whole: int)
    requires whole > 0 && lo == hi.(threshold := lo.threshold) && lo.threshold <= hi.threshold
    ensures forall v :: v in Walk(ts, indent, hi, whole) ==> v in Walk(ts, indent, lo, whole)
    decreases ts, 1
  {
    assert Arrange(ts, lo) == Arrange(ts, hi);
    SiblingsThreshold(Arrange(ts, hi), 0, indent, lo, hi, whole, ts);
  }

  lemma {:induction false} SiblingsThreshold<T>(ss: seq<Tree<T>>, k: nat, indent: nat, lo: ReportOptions,
                                                hi: ReportOptions, whole: int, orig: seq<Tree<T>>)
    requires whole > 0 && k <= |ss| && multiset(ss) == multiset(orig)
    requires lo == hi.(threshold := lo.threshold) && lo.threshold <= hi.threshold
    ensures forall v :: v in Siblings(ss, k, indent, hi, whole, orig) ==> v in Siblings(ss, k, indent, lo, whole, orig)
    decreases orig, 0, |ss| - k
  {
    if !(k == |ss| || TooDeep(indent, hi) || !Heavy(ss[k], hi, whole)) {
      assert lo.one == hi.one;
      assert Heavy(ss[k], lo, whole) && !TooDeep(indent, lo);
      assert ss[k] in multiset(orig);
      assert ss[k] in orig;
      var head := [Shown(indent + 1, ss[k].info, ss[k].duration)];
      var wHi, wLo := Walk(ss[k].subtraces, indent + 1, hi, whole), Walk(ss[k].subtraces, indent + 1, lo, whole);
      WalkThreshold(ss[k].subtraces, indent + 1, lo, hi, whole);
      if hi.one && indent == 0 {
        assert Siblings(ss, k, indent, hi, whole, orig) == head + wHi + [];
        assert Siblings(ss, k, indent, lo, whole, orig) == head + wLo + [];
        SubsetJoin(head, wHi, [], wLo, []);
      } else {
        var rHi, rLo := Siblings(ss, k + 1, indent, hi, whole, orig), Siblings(ss, k + 1, indent, lo, whole, orig);
        assert Siblings(ss, k, indent, hi, whole, orig) == head + wHi + rHi;
        assert Siblings(ss, k, indent, lo, whole, orig) == head + wLo + rLo;
        SiblingsThreshold(ss, k + 1, indent, lo, hi, whole, orig);
        SubsetJoin(head, wHi, rHi, wLo, rLo);
      }
    }
  }

  /** Lines `a` followed by fewer lines than `b2` and `c2` are among `a + b2 + c2`. */
  lemma SubsetJoin<X>(a: seq<X>, b: seq<X>, c: seq<X>, b2: seq<X>, c2: seq<X>)
    requires forall v :: v in b ==> v in b2
    requires forall v :: v in c ==> v in c2
    ensures forall v :: v in a + b + c ==> v in a + b2 + c2
  {
  }

  /** With a lower `-t` and the other options the same, the report holds every line it holds
      with the higher one. */
  lemma PrintThreshold<T>(forest: seq<Tree<T>>, lo: ReportOptions, hi: ReportOptions, whole: int)
    requires whole > 0 && lo == hi.(threshold := lo.threshold) && lo.threshold <= hi.threshold
    ensures forall v :: v in PrintTraces(forest, hi, whole) ==> v in PrintTraces(forest, lo, whole)
  {
    WalkThreshold(forest, 0, lo, hi, whole);
  }

  /** The lines at one nesting level. */
  function AtLevel<T>(vs: seq<Shown<T>>, level: nat): seq<Shown<T>>
  {
    if vs == [] then []
    else (if vs[0].level == level then [vs[0]] else []) + AtLevel(vs[1..], level)
  }

  lemma {:induction false} AtLevelAppend<T>(a: seq<Shown<T>>, b: seq<Shown<T>>, level: nat)
    ensures AtLevel(a + b, level) == AtLevel(a, level) + AtLevel(b, level)
  {
    if a == [] {
      assert a + b == b;
    } else {
      var x := if a[0].level == level then [a[0]] else [];
      assert (a + b)[0] == a[0];
      assert (a + b)[1..] == a[1..] + b;
      assert AtLevel(a + b, level) == x + AtLevel(a[1..] + b, level);
      AtLevelAppend(a[1..], b, level);
      assert x + (AtLevel(a[1..], level) + AtLevel(b, level)) == (x + AtLevel(a[1..], level)) + AtLevel(b, level);
    }
  }

  lemma {:induction false} AtLevelDeeper<T>(vs: seq<Shown<T>>, level: nat)
    requires forall i :: 0 <= i < |vs| ==> vs[i].level > level
    ensures AtLevel(vs, level) == []
  {
    if vs != [] {
      assert forall i :: 0 <= i < |vs| - 1 ==> vs[1..][i] == vs[i + 1];
      AtLevelDeeper(vs[1..], level);
    }
  }

  /** The lines for a list of nodes at one level. */
  function ShownAll<T>(ts: seq<Tree<T>>, level: nat): (vs: seq<Shown<T>>)
    ensures |vs| == |ts|
    ensures forall i :: 0 <= i < |ts| ==> vs[i] == Shown(level, ts[i].info, ts[i].duration)
  {
    if ts == [] then [] else [Shown(level, ts[0].info, ts[0].duration)] + ShownAll(ts[1..], level)
  }

  /** Where a sibling loop stopped: after `m` siblings, for one of its three reasons. */
  ghost predicate StopsAt<T>(ss: seq<Tree<T>>, k: nat, m: nat, indent: nat, opts: ReportOptions, whole: int)
    requires whole > 0 && k <= m <= |ss|
  {
    && (forall i :: k <= i < m ==> !TooDeep(indent, opts) && Heavy(ss[i], opts, whole))
    && (m < |ss| ==> TooDeep(indent, opts) || !Heavy(ss[m], opts, whole) || (opts.one && indent == 0 && m == k + 1))
    && (opts.one && indent == 0 ==> m <= k + 1)
  }

  lemma StopsAtCons<T>(ss: seq<Tree<T>>, k: nat, m: nat, indent: nat, opts: ReportOptions, whole: int)
    requires whole > 0 && k < m <= |ss| && StopsAt(ss, k + 1, m, indent, opts, whole)
    requires !TooDeep(indent, opts) && Heavy(ss[k], opts, whole) && !(opts.one && indent == 0)
    ensures StopsAt(ss, k, m, indent, opts, whole)
  {
  }

  /** The first line of a continuing sibling loop, with its subtree. */
  lemma SiblingsHead<T>(ss: seq<Tree<T>>, k: nat, indent: nat, opts: ReportOptions, whole: int,
                        orig: seq<Tree<T>>)
    requires whole > 0 && k < |ss| && multiset(ss) == multiset(orig)
    requires !TooDeep(indent, opts) && Heavy(ss[k], opts, whole)
    ensures AtLevel(Siblings(ss, k, indent, opts, whole, orig), indent + 1) ==
              [Shown(indent + 1, ss[k].info, ss[k].duration)] +
              (if opts.one && indent == 0 then [] else AtLevel(Siblings(ss, k + 1, indent, opts, whole, orig), indent + 1))
  {
    assert ss[k] in multiset(orig);
    assert ss[k] in orig;
    var head := [Shown(indent + 1, ss[k].info, ss[k].duration)];
    var sub := Walk(ss[k].subtraces, indent + 1, opts, whole);
    var rest := if opts.one && indent == 0 then [] else Siblings(ss, k + 1, indent, opts, whole, orig);
    assert Siblings(ss, k, indent, opts, whole, orig) == head + sub + rest;
    SubtreeHidden(ss[k].subtraces, indent, opts, whole);
    assert AtLevel(head, indent + 1) == head;
    AtLevelAppend(head, sub, indent + 1);
    AtLevelAppend(head + sub, rest, indent + 1);
  }

  lemma {:induction false} SiblingsTop<T>(ss: seq<Tree<T>>, k: nat, indent: nat, opts: ReportOptions, whole: int,
                                          orig: seq<Tree<T>>) returns (m: nat)
    requires whole > 0 && k <= |ss| && multiset(ss) == multiset(orig)
    ensures k <= m <= |ss| && StopsAt(ss, k, m, indent, opts, whole)
    ensures AtLevel(Siblings(ss, k, indent, opts, whole, orig), indent + 1) == ShownAll(ss[k..m], indent + 1)
    decreases |ss| - k
  {
    if k == |ss| || TooDeep(indent, opts) || !Heavy(ss[k], opts, whole) {
      m := k;
      assert Siblings(ss, k, indent, opts, whole, orig) == [];
    } else {
      SiblingsHead(ss, k, indent, opts, whole, orig);
      var head := [Shown(indent + 1, ss[k].info, ss[k].duration)];
      if opts.one && indent == 0 {
        m := k + 1;
        assert ShownAll(ss[k..m], indent + 1) == head;
      } else {
        m := SiblingsTop(ss, k + 1, indent, opts, whole, orig);
        StopsAtCons(ss, k, m, indent, opts, whole);
        ShownAllStep(ss, k, m, indent + 1);
      }
    }
  }

  lemma ShownAllStep<T>(ss: seq<Tree<T>>, k: nat, m: nat, level: nat)
    requires k < m <= |ss|
    ensures ShownAll(ss[k..m], level) == [Shown(level, ss[k].info, ss[k].duration)] + ShownAll(ss[k + 1..m], level)
  {
    assert ss[k..m][1..] == ss[k + 1..m];
  }

  /** A node's subtraces print nothing at the node's own level. */
  lemma SubtreeHidden<T>(ts: seq<Tree<T>>, indent: nat, opts: ReportOptions, whole: int)
    requires whole > 0
    ensures AtLevel(Walk(ts, indent + 1, opts, whole), indent + 1) == []
  {
    var vs := Walk(ts, indent + 1, opts, whole);
    assert forall i :: 0 <= i < |vs| ==> vs[i] in vs;
    AtLevelDeeper(vs, indent + 1);
  }

  /**
    The lines at one level of a sibling loop are, in order, the longest run of the arranged
    siblings that are within the depth limit and at or above the threshold (only the
    first one with `one` at the top level); with `-s` that run is in non-increasing
    duration order.
  */
  lemma WalkTop<T>(ts: seq<Tree<T>>, indent: nat, opts: ReportOptions, whole: int) returns (m: nat)
    requires whole > 0
    ensures m <= |Arrange(ts, opts)| && StopsAt(Arrange(ts, opts), 0, m, indent, opts, whole)
    ensures AtLevel(Walk(ts, indent, opts, whole), indent + 1) == ShownAll(Arrange(ts, opts)[..m], indent + 1)
    ensures opts.sortTraces ==>
              forall i, j :: 0 <= i < j < m ==> Arrange(ts, opts)[i].duration >= Arrange(ts, opts)[j].duration
  {
    var arr := Arrange(ts, opts);
    m := SiblingsTop(arr, 0, indent, opts, whole, ts);
    assert arr[0..m] == arr[..m];
    if opts.sortTraces {
      SortDescSorted(ts, ByDuration);
      forall i, j | 0 <= i < j < m ensures arr[i].duration >= arr[j].duration {
        assert !KeyBelow(ByDuration(arr[i]), ByDuration(arr[j]));
      }
    }
  }
}
