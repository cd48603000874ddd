/**
  The report of the older version (`cmake_profile_stat.py`): `print_trace` and the loop
  over the filed top-level traces, as the list of lines they print. Every trace at or
  above the threshold is printed, its subtraces after it one indent deeper, sorted by
  line text or with `-s` by duration, largest first; the top-level traces come in
  decreasing duration and the loop stops at the first one below the threshold, or after
  the first one with `-1`.
*/
module LegacyReport {
  import opened Wrappers
  import opened TraceArena
  import opened Ordering
  import opened LegacyText
  import opened LegacyCollector

  /** The options `-t`, `-s` and `-1`. */
  datatype LegacyOptions = LegacyOptions(threshold: real, sortTraces: bool, one: bool)

  /** A printed line: a trace at an indent (`file(line): code`, its duration and its share
      of the whole duration), or the empty line after a top-level trace. */
  datatype Out = Line(indent: nat, info: LegacyInfo, duration: int) | Blank

  /** Not `trace.duration / duration < args.threshold`. */
  predicate Heavy(t: Tree<LegacyInfo>, whole: int, opts: LegacyOptions)
    requires whole != 0
  {
    !((t.duration as real) / (whole as real) < opts.threshold)
  }

  function ByDuration(t: Tree<LegacyInfo>): SortKey
  {
    Num(t.duration)
  }

  function ByLine(t: Tree<LegacyInfo>): SortKey
  {
    Text(t.info.line)
  }

  /** The sort key of the subtraces: the duration with `-s`, otherwise the line text. */
  function KeyOf(opts: LegacyOptions): Tree<LegacyInfo> -> SortKey
  {
    if opts.sortTraces then ByDuration else ByLine
  }

  /** The subtraces in printing order: a permutation of them, largest key first. */
  function Arrange(ts: seq<Tree<LegacyInfo>>, opts: LegacyOptions): (r: seq<Tree<LegacyInfo>>)
    ensures multiset(r) == multiset(ts) && |r| == |ts|
    ensures Descending(r, KeyOf(opts))
  {
    assert |multiset(ts)| == |ts|;
    SortDescSorted(ts, KeyOf(opts));
    SortDesc(ts, KeyOf(opts))
  }

  /** Trace lines at `indent` or deeper, each at or above the threshold. */
  ghost predicate Within(outs: seq<Out>, indent: nat, whole: int, opts: LegacyOptions)
    requires whole != 0
  {
    forall o :: o in outs ==>
      o.Line? && indent <= o.indent && !((o.duration as real) / (whole as real) < opts.threshold)
  }

  /** `print_trace(args, trace, duration, indent)`: every line it prints is a trace line
      (never an empty one), at `indent` or deeper, at or above the threshold. */
  function PrintTrace(t: Tree<LegacyInfo>, whole: int, indent: nat, opts: LegacyOptions): (r: seq<Out>)
    requires whole != 0
    ensures Within(r, indent, whole, opts)
    decreases t, 1
  {
    if !Heavy(t, whole, opts) then []
    else [Line(indent, t.info, t.duration)] + PrintEach(Arrange(t.subtraces, opts), 0, whole, indent + 1, opts, t.subtraces)
  }

  /** The `for t in sorted(...)` loop of `print_trace` from the `k`-th subtrace on; it
      ignores what each call returns. */
  function PrintEach(ss: seq<Tree<LegacyInfo>>, k: nat, whole: int, indent: nat, opts: LegacyOptions,
                     ghost orig: seq<Tree<LegacyInfo>>): (r: seq<Out>)
    requires whole != 0 && k <= |ss| && multiset(ss) == multiset(orig)
    ensures Within(r, indent, whole, opts)
    decreases orig, 0, |ss| - k
  {
    if k == |ss| then []
    else
      assert ss[k] in multiset(orig);
      assert ss[k] in orig;
      PrintTrace(ss[k], whole, indent, opts) + PrintEach(ss, k + 1, whole, indent, opts, orig)
  }

  // ---------------------------------------------------------------------------
  // The same lines without sorting

  /** Every trace at or above the threshold whose enclosing traces all are, in the trees'
      own order. */
  function Pruned(t: Tree<LegacyInfo>, whole: int, indent: nat, opts: LegacyOptions): seq<Out>
    requires whole != 0
    decreases t, 1
  {
    if !Heavy(t, whole, opts) then []
    else [Line(indent, t.info, t.duration)] + PrunedList(t.subtraces, whole, indent + 1, opts)
  }

  function PrunedList(ts: seq<Tree<LegacyInfo>>, whole: int, indent: nat, opts: LegacyOptions): seq<Out>
    requires whole != 0
    decreases ts, 0
  {
    if ts == [] then [] else Pruned(ts[0], whole, indent, opts) + PrunedList(ts[1..], whole, indent, opts)
  }

  lemma {:induction false} PrunedListAppend(a: seq<Tree<LegacyInfo>>, b: seq<Tree<LegacyInfo>>, whole: int,
                                            indent: nat, opts: LegacyOptions)
    requires whole != 0
    ensures PrunedList(a + b, whole, indent, opts) == PrunedList(a, whole, indent, opts) + PrunedList(b, whole, indent, opts)
    decreases |a|
  {
    if a == [] {
      assert a + b == b;
    } else {
      assert (a + b)[0] == a[0];
      assert (a + b)[1..] == a[1..] + b;
      PrunedListAppend(a[1..], b, whole, indent, opts);
    }
  }

  /** Reordering the traces reorders their lines and nothing else. */
  lemma {:induction false} PrunedListPerm(a: seq<Tree<LegacyInfo>>, b: seq<Tree<LegacyInfo>>, whole: int,
                                          indent: nat, opts: LegacyOptions)
    requires whole != 0 && multiset(a) == multiset(b)
    ensures multiset(PrunedList(a, whole, indent, opts)) == multiset(PrunedList(b, whole, indent, opts))
    decreases |a|
  {
    if a == [] {
      assert |b| == |multiset(b)| == 0;
    } else {
      var x := a[0];
      assert x in multiset(b);
      var i :| 0 <= i < |b| && b[i] == x;
      var rest := b[..i] + b[i + 1..];
      MultisetRemove(a, b, i);
      PrunedListPerm(a[1..], rest, whole, indent, opts);
      PrunedListSplit(b, i, whole, indent, opts);
      assert PrunedList(a, whole, indent, opts) == Pruned(x, whole, indent, opts) + PrunedList(a[1..], whole, indent, opts);
    }
  }

  /** Taking the first element out of `a` and its match out of `b` keeps them permutations. */
  lemma MultisetRemove(a: seq<Tree<LegacyInfo>>, b: seq<Tree<LegacyInfo>>, i: nat)
    requires a != [] && i < |b| && b[i] == a[0] && multiset(a) == multiset(b)
    ensures multiset(a[1..]) == multiset(b[..i] + b[i + 1..])
  {
    var x, rest := a[0], b[..i] + b[i + 1..];
    assert b == b[..i] + [x] + b[i + 1..];
    assert multiset(b) == multiset(b[..i]) + multiset([x]) + multiset(b[i + 1..]);
    assert a == [x] + a[1..];
    assert multiset(a) == multiset([x]) + multiset(a[1..]);
    assert multiset(rest) == multiset(b[..i]) + multiset(b[i + 1..]);
    forall y ensures multiset(a[1..])[y] == multiset(rest)[y] {
      assert multiset(a)[y] == multiset([x])[y] + multiset(a[1..])[y];
    }
  }

  /** The lines of a sequence of traces, cut around its `i`-th trace. */
  lemma PrunedListSplit(b: seq<Tree<LegacyInfo>>, i: nat, whole: int, indent: nat, opts: LegacyOptions)
    requires whole != 0 && i < |b|
    ensures PrunedList(b, whole, indent, opts) ==
              PrunedList(b[..i], whole, indent, opts) + Pruned(b[i], whole, indent, opts) + PrunedList(b[i + 1..], whole, indent, opts)
    ensures PrunedList(b[..i] + b[i + 1..], whole, indent, opts) ==
              PrunedList(b[..i], whole, indent, opts) + PrunedList(b[i + 1..], whole, indent, opts)
  {
    var tail := [b[i]] + b[i + 1..];
    assert b == b[..i] + tail;
    PrunedListAppend(b[..i], tail, whole, indent, opts);
    PrunedListAppend(b[..i], b[i + 1..], whole, indent, opts);
    assert tail[0] == b[i] && tail[1..] == b[i + 1..];
  }

  /** Sorting the subtraces changes only the order of the printed lines: as a multiset they
      are the lines of the unsorted trees. */
  lemma {:induction false} PrintTracePermutes(t: Tree<LegacyInfo>, whole: int, indent: nat, opts: LegacyOptions)
    requires whole != 0
    ensures multiset(PrintTrace(t, whole, indent, opts)) == multiset(Pruned(t, whole, indent, opts))
    decreases t, 1
  {
    if Heavy(t, whole, opts) {
      var ss := Arrange(t.subtraces, opts);
      PrintEachPermutes(ss, 0, whole, indent + 1, opts, t.subtraces);
      assert ss[0..] == ss;
      PrunedListPerm(ss, t.subtraces, whole, indent + 1, opts);
    }
  }

  lemma {:induction false} PrintEachPermutes(ss: seq<Tree<LegacyInfo>>, k: nat, whole: int, indent: nat,
                                             opts: LegacyOptions, orig: seq<Tree<LegacyInfo>>)
    requires whole != 0 && k <= |ss| && multiset(ss) == multiset(orig)
    ensures multiset(PrintEach(ss, k, whole, indent, opts, orig)) == multiset(PrunedList(ss[k..], whole, indent, opts))
    decreases orig, 0, |ss| - k
  {
    if k < |ss| {
      assert ss[k] in multiset(orig);
      assert ss[k] in orig;
      PrintTracePermutes(ss[k], whole, indent, opts);
      PrintEachPermutes(ss, k + 1, whole, indent, opts, orig);
      assert ss[k..][0] == ss[k] && ss[k..][1..] == ss[k + 1..];
    }
  }

  // ---------------------------------------------------------------------------
  // Bounds and order

  /** The trace lines at one indent. */
  function AtIndent(outs: seq<Out>, indent: nat): seq<Out>
  {
    if outs == [] then []
    else (if outs[0].Line? && outs[0].indent == indent then [outs[0]] else []) + AtIndent(outs[1..], indent)
  }

  lemma {:induction false} AtIndentAppend(a: seq<Out>, b: seq<Out>, indent: nat)
    ensures AtIndent(a + b, indent) == AtIndent(a, indent) + AtIndent(b, indent)
  {
    if a == [] {
      assert a + b == b;
    } else {
      assert (a + b)[0] == a[0];
      assert (a + b)[1..] == a[1..] + b;
      AtIndentAppend(a[1..], b, indent);
    }
  }

  lemma {:induction false} AtIndentDeeper(outs: seq<Out>, indent: nat)
    requires forall i :: 0 <= i < |outs| ==> outs[i].Line? && outs[i].indent > indent
    ensures AtIndent(outs, indent) == []
  {
    if outs != [] {
      assert forall i :: 0 <= i < |outs| - 1 ==> outs[1..][i] == outs[i + 1];
      AtIndentDeeper(outs[1..], indent);
    }
  }

  /** The one line of `print_trace` at its own indent: the trace itself, when printed. */
  lemma HeadOnly(t: Tree<LegacyInfo>, whole: int, indent: nat, opts: LegacyOptions)
    requires whole != 0
    ensures AtIndent(PrintTrace(t, whole, indent, opts), indent) ==
              if Heavy(t, whole, opts) then [Line(indent, t.info, t.duration)] else []
  {
    if Heavy(t, whole, opts) {
      var head := [Line(indent, t.info, t.duration)];
      var rest := PrintEach(Arrange(t.subtraces, opts), 0, whole, indent + 1, opts, t.subtraces);
      assert forall i :: 0 <= i < |rest| ==> rest[i] in rest;
      AtIndentDeeper(rest, indent);
      AtIndentAppend(head, rest, indent);
      assert AtIndent(head, indent) == head;
    }
  }

  /** The arranged traces at or above the threshold, as lines at `indent`. */
  function Heads(ts: seq<Tree<LegacyInfo>>, whole: int, indent: nat, opts: LegacyOptions): seq<Out>
    requires whole != 0
  {
    if ts == [] then []
    else (if Heavy(ts[0], whole, opts) then [Line(indent, ts[0].info, ts[0].duration)] else [])
         + Heads(ts[1..], whole, indent, opts)
  }

  lemma {:induction false} EachHeads(ss: seq<Tree<LegacyInfo>>, k: nat, whole: int, indent: nat, opts: LegacyOptions,
                                     orig: seq<Tree<LegacyInfo>>)
    requires whole != 0 && k <= |ss| && multiset(ss) == multiset(orig)
    ensures AtIndent(PrintEach(ss, k, whole, indent, opts, orig), indent) == Heads(ss[k..], whole, indent, opts)
    decreases |ss| - k
  {
    if k < |ss| {
      assert ss[k] in multiset(orig);
      assert ss[k] in orig;
      HeadOnly(ss[k], whole, indent, opts);
      EachHeads(ss, k + 1, whole, indent, opts, orig);
      AtIndentAppend(PrintTrace(ss[k], whole, indent, opts), PrintEach(ss, k + 1, whole, indent, opts, orig), indent);
      assert ss[k..][0] == ss[k] && ss[k..][1..] == ss[k + 1..];
    }
  }

  /**
    `print_trace` prints something exactly when the trace is at or above the threshold
    (what it returns); it prints the trace first, and one indent deeper every subtrace at
    or above the threshold, in the arranged order, largest key first, none skipped.
  */
  lemma PrintOrder(t: Tree<LegacyInfo>, whole: int, indent: nat, opts: LegacyOptions)
    requires whole != 0
    ensures PrintTrace(t, whole, indent, opts) != [] <==> Heavy(t, whole, opts)
    ensures Heavy(t, whole, opts) ==>
              && PrintTrace(t, whole, indent, opts)[0] == Line(indent, t.info, t.duration)
              && AtIndent(PrintTrace(t, whole, indent, opts), indent + 1) ==
                 Heads(Arrange(t.subtraces, opts), whole, indent + 1, opts)
  {
    if Heavy(t, whole, opts) {
      var head := [Line(indent, t.info, t.duration)];
      var ss := Arrange(t.subtraces, opts);
      EachHeads(ss, 0, whole, indent + 1, opts, t.subtraces);
      assert ss[0..] == ss;
      AtIndentAppend(head, PrintEach(ss, 0, whole, indent + 1, opts, t.subtraces), indent + 1);
    }
  }

  // ---------------------------------------------------------------------------
  // The top-level loop

  /** `traceKeys.iteritems()`: every filed key once with its duration, in the dictionary's
      own order. */
  predicate Enumerates(items: seq<(string, int)>, traceKeys: map<string, int>)
  {
    && |items| == |traceKeys|
    && (forall i :: 0 <= i < |items| ==> items[i].0 in traceKeys && traceKeys[items[i].0] == items[i].1)
    && (forall i, j :: 0 <= i < j < |items| ==> items[i].0 != items[j].0)
  }

  function ByShare(item: (string, int)): SortKey
  {
    Num(item.1)
  }

  /** Every key of `ordered` has a filed trace. */
  predicate Shelved(ordered: seq<(string, int)>, shelf: map<string, Entry>)
  {
    forall i :: 0 <= i < |ordered| ==> ordered[i].0 in shelf && shelf[ordered[i].0].Stored?
  }

  /** The `for (k, d) in sorted(...)` loop from the `k`-th pair on: print the filed trace;
      stop when it prints nothing, or with `-1`; otherwise an empty line follows. Every
      trace line is at or above the threshold, and with `-1` no empty line is printed. */
  function Top(ordered: seq<(string, int)>, k: nat, shelf: map<string, Entry>, whole: int, opts: LegacyOptions)
    : (r: seq<Out>)
    requires whole != 0 && k <= |ordered| && Shelved(ordered, shelf)
    ensures forall o :: o in r ==> o == Blank || !((o.duration as real) / (whole as real) < opts.threshold)
    ensures opts.one ==> Blank !in r
    decreases |ordered| - k
  {
    if k == |ordered| then []
    else
      var t := shelf[ordered[k].0].trace;
      if !Heavy(t, whole, opts) || opts.one then PrintTrace(t, whole, 0, opts)
      else PrintTrace(t, whole, 0, opts) + [Blank] + Top(ordered, k + 1, shelf, whole, opts)
  }

  lemma OrderedShelved(items: seq<(string, int)>, shelf: map<string, Entry>, traceKeys: map<string, int>)
    requires Filed(shelf, traceKeys) && Enumerates(items, traceKeys)
    ensures Shelved(SortDesc(items, ByShare), shelf)
    ensures forall i :: 0 <= i < |SortDesc(items, ByShare)| ==>
              shelf[SortDesc(items, ByShare)[i].0].trace.duration == SortDesc(items, ByShare)[i].1
  {
    var ordered := SortDesc(items, ByShare);
    forall i | 0 <= i < |ordered|
      ensures ordered[i].0 in traceKeys && traceKeys[ordered[i].0] == ordered[i].1
    {
      assert ordered[i] in multiset(items);
      var j :| 0 <= j < |items| && items[j] == ordered[i];
    }
  }

  /**
    The report after collecting (or from a stored shelf): the filed traces, sorted by
    duration, largest first. The division by the whole duration raises when it is zero,
    as it is for a log with one matched line, unless nothing was filed.
  */
  function Report(items: seq<(string, int)>, shelf: map<string, Entry>, traceKeys: map<string, int>, whole: int,
                  opts: LegacyOptions): (r: Option<seq<Out>>)
    requires Filed(shelf, traceKeys) && Enumerates(items, traceKeys)
    ensures r.None? <==> whole == 0 && traceKeys != map[]
  {
    if items == [] then
      assert traceKeys.Keys == {};
      Some([])
    else if whole == 0 then
      assert items[0].0 in traceKeys;
      None
    else
      OrderedShelved(items, shelf, traceKeys);
      Some(Top(SortDesc(items, ByShare), 0, shelf, whole, opts))
  }

  /** The options with a lower threshold and nothing else changed. */
  predicate Lowered(lo: LegacyOptions, hi: LegacyOptions)
  {
    lo == hi.(threshold := lo.threshold) && lo.threshold <= hi.threshold
  }

  /** `print_trace` with a lower threshold prints every line it prints with a higher one: the
      order of the subtraces does not depend on the threshold, and a trace printed under the
      higher one is printed under the lower one. */
  lemma {:induction false} PrintThreshold(t: Tree<LegacyInfo>, whole: int, indent: nat, lo: LegacyOptions,
                                          hi: LegacyOptions)
    requires whole != 0 && Lowered(lo, hi)
    ensures forall o :: o in PrintTrace(t, whole, indent, hi) ==> o in PrintTrace(t, whole, indent, lo)
    decreases t, 1
  {
    if Heavy(t, whole, hi) {
      assert Heavy(t, whole, lo);
      assert Arrange(t.subtraces, lo) == Arrange(t.subtraces, hi);
      EachThreshold(Arrange(t.subtraces, hi), 0, whole, indent + 1, lo, hi, t.subtraces);
    }
  }

  lemma {:induction false} EachThreshold(ss: seq<Tree<LegacyInfo>>, k: nat, whole: int, indent: nat, lo: LegacyOptions,
                                         hi: LegacyOptions, orig: seq<Tree<LegacyInfo>>)
    requires whole != 0 && k <= |ss| && multiset(ss) == multiset(orig) && Lowered(lo, hi)
    ensures forall o :: o in PrintEach(ss, k, whole, indent, hi, orig) ==> o in PrintEach(ss, k, whole, indent, lo, orig)
    decreases orig, 0, |ss| - k
  {
    if k < |ss| {
      assert ss[k] in multiset(orig);
      assert ss[k] in orig;
      PrintThreshold(ss[k], whole, indent, lo, hi);
      EachThreshold(ss, k + 1, whole, indent, lo, hi, orig);
    }
  }

  /** The top-level loop with a lower threshold prints every line it prints with a higher
      one, the empty lines included: it goes on at least as long. */
  lemma {:induction false} TopThreshold(ordered: seq<(string, int)>, k: nat, shelf: map<string, Entry>, whole: int,
                                        lo: LegacyOptions, hi: LegacyOptions)
    requires whole != 0 && k <= |ordered| && Shelved(ordered, shelf) && Lowered(lo, hi)
    ensures forall o :: o in Top(ordered, k, shelf, whole, hi) ==> o in Top(ordered, k, shelf, whole, lo)
    decreases |ordered| - k
  {
    if k < |ordered| {
      var t := shelf[ordered[k].0].trace;
      PrintThreshold(t, whole, 0, lo, hi);
      if Heavy(t, whole, hi) && !hi.one {
        assert Heavy(t, whole, lo);
        TopThreshold(ordered, k + 1, shelf, whole, lo, hi);
      }
    }
  }

  /** With a lower `-t` and the other options the same, the report holds every line it holds
      with the higher one. */
  lemma ReportThreshold(items: seq<(string, int)>, shelf: map<string, Entry>, traceKeys: map<string, int>, whole: int,
                        lo: LegacyOptions, hi: LegacyOptions)
    requires Filed(shelf, traceKeys) && Enumerates(items, traceKeys) && Lowered(lo, hi)
    ensures Report(items, shelf, traceKeys, whole, hi).Some? <==> Report(items, shelf, traceKeys, whole, lo).Some?
    ensures Report(items, shelf, traceKeys, whole, hi).Some? ==>
              forall o :: o in Report(items, shelf, traceKeys, whole, hi).value ==>
                o in Report(items, shelf, traceKeys, whole, lo).value
  {
    if items != [] && whole != 0 {
      OrderedShelved(items, shelf, traceKeys);
      TopThreshold(SortDesc(items, ByShare), 0, shelf, whole, lo, hi);
    }
  }

  /** Where the top-level loop stops: after `m` printed traces. */
  ghost predicate TopStops(ordered: seq<(string, int)>, k: nat, m: nat, shelf: map<string, Entry>, whole: int,
                           opts: LegacyOptions)
    requires whole != 0 && k <= m <= |ordered| && Shelved(ordered, shelf)
  {
    && (forall i :: k <= i < m ==> Heavy(shelf[ordered[i].0].trace, whole, opts))
    && (m < |ordered| && !(opts.one && m == k + 1) ==> !Heavy(shelf[ordered[m].0].trace, whole, opts))
    && (opts.one ==> m <= k + 1)
  }

  lemma {:induction false} TopHeads(ordered: seq<(string, int)>, k: nat, shelf: map<string, Entry>, whole: int,
                                    opts: LegacyOptions) returns (m: nat)
    requires whole != 0 && k <= |ordered| && Shelved(ordered, shelf)
    ensures k <= m <= |ordered| && TopStops(ordered, k, m, shelf, whole, opts)
    ensures Listed(AtIndent(Top(ordered, k, shelf, whole, opts), 0), ordered, k, m, shelf)
    decreases |ordered| - k
  {
    if k == |ordered| {
      m := k;
    } else {
      var t := shelf[ordered[k].0].trace;
      TopUnfold(ordered, k, shelf, whole, opts);
      if !Heavy(t, whole, opts) {
        m := k;
        assert AtIndent(Top(ordered, k, shelf, whole, opts), 0) == [];
      } else if opts.one {
        m := k + 1;
        assert AtIndent(Top(ordered, k, shelf, whole, opts), 0) == [Line(0, t.info, t.duration)];
      } else {
        m := TopHeads(ordered, k + 1, shelf, whole, opts);
        var tops, rest := AtIndent(Top(ordered, k, shelf, whole, opts), 0), AtIndent(Top(ordered, k + 1, shelf, whole, opts), 0);
        assert tops == [Line(0, t.info, t.duration)] + rest;
        TopHeadsStep(tops, rest, Line(0, t.info, t.duration), ordered, k, m, shelf);
        TopStopsStep(ordered, k, m, shelf, whole, opts);
      }
    }
  }

  /** A heavy trace before where the loop stops from the next one, without `-1`, moves the
      start back by one. */
  lemma TopStopsStep(ordered: seq<(string, int)>, k: nat, m: nat, shelf: map<string, Entry>, whole: int,
                     opts: LegacyOptions)
    requires whole != 0 && k < m <= |ordered| && Shelved(ordered, shelf) && !opts.one
    requires Heavy(shelf[ordered[k].0].trace, whole, opts) && TopStops(ordered, k + 1, m, shelf, whole, opts)
    ensures TopStops(ordered, k, m, shelf, whole, opts)
  {
  }

  /** The top-level lines of one round of the loop. */
  lemma TopUnfold(ordered: seq<(string, int)>, k: nat, shelf: map<string, Entry>, whole: int, opts: LegacyOptions)
    requires whole != 0 && k < |ordered| && Shelved(ordered, shelf)
    ensures var t := shelf[ordered[k].0].trace;
            var head := if Heavy(t, whole, opts) then [Line(0, t.info, t.duration)] else [];
            AtIndent(Top(ordered, k, shelf, whole, opts), 0) ==
              if !Heavy(t, whole, opts) || opts.one then head
              else head + AtIndent(Top(ordered, k + 1, shelf, whole, opts), 0)
  {
    var t := shelf[ordered[k].0].trace;
    var printed := PrintTrace(t, whole, 0, opts);
    HeadOnly(t, whole, 0, opts);
    if Heavy(t, whole, opts) && !opts.one {
      var rest := Top(ordered, k + 1, shelf, whole, opts);
      assert Top(ordered, k, shelf, whole, opts) == printed + [Blank] + rest;
      AtIndentAppend(printed, [Blank], 0);
      AtIndentAppend(printed + [Blank], rest, 0);
      assert AtIndent([Blank], 0) == [];
    }
  }

  /** `tops` shows the filed traces of `ordered[k..m]` as top-level lines, in order. */
  ghost predicate Listed(tops: seq<Out>, ordered: seq<(string, int)>, k: nat, m: nat, shelf: map<string, Entry>)
    requires k <= m <= |ordered| && Shelved(ordered, shelf)
  {
    && |tops| == m - k
    && forall i :: k <= i < m ==>
         tops[i - k] == Line(0, shelf[ordered[i].0].trace.info, shelf[ordered[i].0].trace.duration)
  }

  lemma TopHeadsStep(tops: seq<Out>, rest: seq<Out>, head: Out, ordered: seq<(string, int)>, k: nat, m: nat,
                     shelf: map<string, Entry>)
    requires k < m <= |ordered| && Shelved(ordered, shelf) && tops == [head] + rest
    requires head == Line(0, shelf[ordered[k].0].trace.info, shelf[ordered[k].0].trace.duration)
    requires Listed(rest, ordered, k + 1, m, shelf)
    ensures Listed(tops, ordered, k, m, shelf)
  {
    forall i | k <= i < m
      ensures tops[i - k] == Line(0, shelf[ordered[i].0].trace.info, shelf[ordered[i].0].trace.duration)
    {
      if i > k {
        assert tops[i - k] == rest[i - (k + 1)];
      }
    }
  }

  /**
    The top-level lines of the report are the filed traces in decreasing duration, as
    many as are at or above the threshold before the first that is not (only the first
    with `-1`), none skipped.
  */
  lemma ReportTops(items: seq<(string, int)>, shelf: map<string, Entry>, traceKeys: map<string, int>, whole: int,
                   opts: LegacyOptions) returns (m: nat)
    requires Filed(shelf, traceKeys) && Enumerates(items, traceKeys) && whole != 0
    ensures var ordered := SortDesc(items, ByShare);
            && Report(items, shelf, traceKeys, whole, opts).Some?
            && multiset(ordered) == multiset(items)
            && m <= |ordered| && Shelved(ordered, shelf)
            && TopStops(ordered, 0, m, shelf, whole, opts)
            && (forall i, j :: 0 <= i < j < |ordered| ==> ordered[i].1 >= ordered[j].1)
            && (forall i :: 0 <= i < |ordered| ==> shelf[ordered[i].0].trace.duration == ordered[i].1)
            && var tops := AtIndent(Report(items, shelf, traceKeys, whole, opts).value, 0);
               && |tops| == m
               && forall i :: 0 <= i < m ==>
                    tops[i] == Line(0, shelf[ordered[i].0].trace.info, shelf[ordered[i].0].trace.duration)
  {
    var ordered := SortDesc(items, ByShare);
    OrderedShelved(items, shelf, traceKeys);
    if items == [] {
      m := 0;
    } else {
      m := TopHeads(ordered, 0, shelf, whole, opts);
    }
    SortDescSorted(items, ByShare);
    forall i, j | 0 <= i < j < |ordered| ensures ordered[i].1 >= ordered[j].1 {
      assert !KeyBelow(ByShare(ordered[i]), ByShare(ordered[j]));
    }
  }
}
