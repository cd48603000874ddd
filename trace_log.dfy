/**
  `_parse_cmake_log` of the current version: turns the decoded JSON records of a
  `--trace-format=json-v1` log into trace events.

  A record's fields are `None` when the key is missing or its value does not convert
  (`float()` or `int()` raising); a line that is not JSON at all is `Undecodable`. The
  reader keeps its state across lines: a record that fails part way still leaves the
  fields it got to (time, then trace info, then nesting), and when the log ends the last
  state is yielded once more.
*/
module TraceLog {
  import opened Wrappers
  import opened TraceText

  datatype Record = Record(time: Option<int>, cmd: Option<string>, args: Option<seq<string>>,
                           file: Option<string>, line: Option<int>, frame: Option<int>)

  datatype Line = Undecodable | Decoded(record: Record)

  /** One yielded event: nesting (`None` when ignored), time in ticks and trace info. */
  datatype Event = Event(nesting: Option<int>, time: int, info: TraceInfo)

  /** The reader's `current_nesting`, `current_timeval` and `current_trace_info`. */
  datatype ParseState = ParseState(nesting: Option<int>, time: Option<int>, info: Option<TraceInfo>)

  const Start := ParseState(None, None, None)

  /** cmake 3.17 reports `else` and `elseif` one level too shallow. */
  predicate HasNestingBug(cmd: string)
  {
    cmd == "else" || cmd == "elseif"
  }

  /** `sep.join(xs)`. */
  function Join(xs: seq<string>, sep: string): string
  {
    if xs == [] then "" else if |xs| == 1 then xs[0] else xs[0] + sep + Join(xs[1..], sep)
  }

  /** `build_cmake_command`: `cmd()` without arguments, `cmd("a1" "a2")` with some. */
  function BuildCommand(cmd: string, args: seq<string>): string
  {
    var q := if args != [] then "\"" else "";
    cmd + "(" + q + Join(args, "\" \"") + q + ")"
  }

  /** Each argument in double quotes, separated by single spaces. */
  function Quoted(args: seq<string>): string
  {
    if args == [] then "" else if |args| == 1 then "\"" + args[0] + "\""
    else "\"" + args[0] + "\" " + Quoted(args[1..])
  }

  lemma {:induction false} JoinQuoted(args: seq<string>)
    requires args != []
    ensures "\"" + Join(args, "\" \"") + "\"" == Quoted(args)
    decreases |args|
  {
    if |args| > 1 {
      JoinQuoted(args[1..]);
      calc {
        "\"" + Join(args, "\" \"") + "\"";
        "\"" + args[0] + "\" \"" + Join(args[1..], "\" \"") + "\"";
        { assert "\" \"" == "\" " + "\""; }
        "\"" + args[0] + "\" " + ("\"" + Join(args[1..], "\" \"") + "\"");
      }
    }
  }

  /** The rendered code is the command name followed by its quoted arguments in parentheses. */
  lemma BuildCommandQuotes(cmd: string, args: seq<string>)
    ensures BuildCommand(cmd, args) == cmd + "(" + Quoted(args) + ")"
  {
    if args != [] {
      JoinQuoted(args);
    }
  }

  /** The record carries everything the trace info needs. */
  predicate InfoFields(r: Record)
  {
    r.time.Some? && r.cmd.Some? && r.args.Some? && r.file.Some? && r.line.Some?
  }

  /** The record yields an event. */
  predicate Complete(ln: Line, ignore: bool)
  {
    ln.Decoded? && InfoFields(ln.record) && (ignore || ln.record.frame.Some?)
  }

  function InfoOf(r: Record): TraceInfo
    requires InfoFields(r)
  {
    TraceInfo(r.file.value, r.line.value, BuildCommand(r.cmd.value, r.args.value))
  }

  /**
    One pass of the loop body: the new state, and whether it yields. A line yields exactly
    when it is complete; its event then has the line's time and trace info, and its frame
    raised by one for `else`/`elseif` (the nesting is left alone when ignored). A line that
    stops part way still leaves what it got to: its time once that decodes, its trace info
    once all of its fields do; only a yielding line touches the nesting.
  */
  function Absorb(st: ParseState, ln: Line, ignore: bool): (r: (ParseState, bool))
    ensures r.1 <==> Complete(ln, ignore)
    ensures r.1 ==> r.0.time == ln.record.time && r.0.info == Some(InfoOf(ln.record))
    ensures r.1 ==> r.0.nesting == (if ignore then st.nesting
                                    else Some(ln.record.frame.value + (if HasNestingBug(ln.record.cmd.value) then 1 else 0)))
    ensures r.0.time == (if ln.Decoded? && ln.record.time.Some? then ln.record.time else st.time)
    ensures r.0.info == (if ln.Decoded? && InfoFields(ln.record) then Some(InfoOf(ln.record)) else st.info)
    ensures !r.1 ==> r.0.nesting == st.nesting
    ensures Coherent(st) ==> Coherent(r.0)
  {
    if ln.Undecodable? || ln.record.time.None? then (st, false)
    else
      var r := ln.record;
      var st1 := st.(time := r.time);
      if !InfoFields(r) then (st1, false)
      else
        var st2 := st1.(info := Some(InfoOf(r)));
        if ignore then (st2, true)
        else if r.frame.None? then (st2, false)
        else (st2.(nesting := Some(r.frame.value + (if HasNestingBug(r.cmd.value) then 1 else 0))), true)
  }

  /** Trace info is never set before a time. */
  predicate Coherent(st: ParseState)
  {
    st.info.Some? ==> st.time.Some?
  }

  function EventOf(st: ParseState): Event
    requires st.info.Some? && st.time.Some?
  {
    Event(st.nesting, st.time.value, st.info.value)
  }

  /** The events yielded from state `st` on for the remaining lines. */
  function Scan(lines: seq<Line>, ignore: bool, st: ParseState): seq<Event>
    requires Coherent(st)
  {
    if lines == [] then
      if st.info.Some? then [EventOf(st)] else []
    else
      var step := Absorb(st, lines[0], ignore);
      (if step.1 then [EventOf(step.0)] else []) + Scan(lines[1..], ignore, step.0)
  }

  /** The reader's state once every line is read. Trace info, once set, stays set. */
  function Final(lines: seq<Line>, ignore: bool, st: ParseState): (r: ParseState)
    requires Coherent(st)
    ensures Coherent(r)
    ensures st.info.Some? ==> r.info.Some?
  {
    if lines == [] then st else Final(lines[1..], ignore, Absorb(st, lines[0], ignore).0)
  }

  /** The whole reader, as a specification. */
  function ParseLog(lines: seq<Line>, ignore: bool): seq<Event>
  {
    Scan(lines, ignore, Start)
  }

  lemma Regroup(a: seq<Event>, b: seq<Event>, c: seq<Event>)
    ensures (a + b) + c == a + (b + c)
  {
  }

  /** Scanning from line `k` on is that line's step followed by the scan of the rest. */
  lemma ScanStep(lines: seq<Line>, k: nat, ignore: bool, st: ParseState)
    requires k < |lines| && Coherent(st)
    ensures var step := Absorb(st, lines[k], ignore);
            Scan(lines[k..], ignore, st) ==
              (if step.1 then [EventOf(step.0)] else []) + Scan(lines[k + 1..], ignore, step.0)
  {
    assert lines[k..][1..] == lines[k + 1..];
  }

  /** `_parse_cmake_log`, its yields collected in order. */
  method ParseCmakeLog(lines: seq<Line>, ignore: bool) returns (events: seq<Event>)
    ensures events == ParseLog(lines, ignore)
  {
    var nesting: Option<int> := None;
    var time: Option<int> := None;
    var info: Option<TraceInfo> := None;
    events := [];
    var k := 0;
    while k < |lines|
      invariant 0 <= k <= |lines|
      invariant info.Some? ==> time.Some?
      invariant events + Scan(lines[k..], ignore, ParseState(nesting, time, info)) == ParseLog(lines, ignore)
    {
      var ln := lines[k];
      ghost var before, st := events, ParseState(nesting, time, info);
      ScanStep(lines, k, ignore, st);
      if ln.Decoded? && ln.record.time.Some? {
        var r := ln.record;
        time := r.time;
        if r.cmd.Some? && r.args.Some? && r.file.Some? && r.line.Some? {
          var code := BuildCommand(r.cmd.value, r.args.value);
          info := Some(TraceInfo(r.file.value, r.line.value, code));
          if ignore || r.frame.Some? {
            if !ignore {
              var n := r.frame.value;
              if r.cmd.value == "else" || r.cmd.value == "elseif" {
                n := n + 1;
              }
              nesting := Some(n);
            }
            events := events + [Event(nesting, time.value, info.value)];
          }
        }
      }
      ghost var step := Absorb(st, ln, ignore);
      ghost var yielded := if step.1 then [EventOf(step.0)] else [];
      assert ParseState(nesting, time, info) == step.0;
      assert events == before + yielded;
      Regroup(before, yielded, Scan(lines[k + 1..], ignore, step.0));
      k := k + 1;
    }
    if info.Some? {
      events := events + [Event(nesting, time.value, info.value)];
    }
  }

  // ---------------------------------------------------------------------------
  // Properties of the reader

  function CountComplete(lines: seq<Line>, ignore: bool): nat
  {
    if lines == [] then 0 else (if Complete(lines[0], ignore) then 1 else 0) + CountComplete(lines[1..], ignore)
  }

  predicate AnyInfo(lines: seq<Line>)
  {
    exists k :: 0 <= k < |lines| && lines[k].Decoded? && InfoFields(lines[k].record)
  }

  /** One event per complete line, plus the repeated final state once any line got as far as
      the trace info. */
  lemma {:induction false} ScanCount(lines: seq<Line>, ignore: bool, st: ParseState)
    requires Coherent(st)
    ensures |Scan(lines, ignore, st)| ==
              CountComplete(lines, ignore) + (if st.info.Some? || AnyInfo(lines) then 1 else 0)
  {
    if lines != [] {
      var st1 := Absorb(st, lines[0], ignore).0;
      ScanCount(lines[1..], ignore, st1);
      if AnyInfo(lines[1..]) {
        var k :| 0 <= k < |lines| - 1 && lines[1..][k].Decoded? && InfoFields(lines[1..][k].record);
        assert lines[k + 1] == lines[1..][k];
      }
    }
  }

  lemma ParseLogCount(lines: seq<Line>, ignore: bool)
    ensures |ParseLog(lines, ignore)| == CountComplete(lines, ignore) + (if AnyInfo(lines) then 1 else 0)
  {
    ScanCount(lines, ignore, Start);
  }

  /** The reader yields something exactly when its final state holds trace info, and then
      its last event is that final state: the flush after the loop. */
  lemma {:induction false} ScanLast(lines: seq<Line>, ignore: bool, st: ParseState)
    requires Coherent(st)
    ensures Scan(lines, ignore, st) != [] <==> Final(lines, ignore, st).info.Some?
    ensures Final(lines, ignore, st).info.Some? ==>
              Last(Scan(lines, ignore, st)) == EventOf(Final(lines, ignore, st))
  {
    if lines != [] {
      var step := Absorb(st, lines[0], ignore);
      ScanLast(lines[1..], ignore, step.0);
      var yielded := if step.1 then [EventOf(step.0)] else [];
      var rest := Scan(lines[1..], ignore, step.0);
      assert Scan(lines, ignore, st) == yielded + rest;
      if rest != [] {
        assert Last(yielded + rest) == Last(rest);
      }
    }
  }

  lemma ParseLogLast(lines: seq<Line>, ignore: bool)
    ensures ParseLog(lines, ignore) != [] <==> Final(lines, ignore, Start).info.Some?
    ensures ParseLog(lines, ignore) != [] ==> Last(ParseLog(lines, ignore)) == EventOf(Final(lines, ignore, Start))
  {
    ScanLast(lines, ignore, Start);
  }

  predicate AllComplete(lines: seq<Line>, ignore: bool)
  {
    forall k :: 0 <= k < |lines| ==> Complete(lines[k], ignore)
  }

  function CompleteEvents(lines: seq<Line>, ignore: bool, st: ParseState): seq<Event>
    requires AllComplete(lines, ignore)
  {
    if lines == [] then []
    else
      var st1 := Absorb(st, lines[0], ignore).0;
      [EventOf(st1)] + CompleteEvents(lines[1..], ignore, st1)
  }

  /** On a log whose every line is complete, the reader yields one event per line, in order,
      and then the last line's event a second time. */
  lemma {:induction false} ScanComplete(lines: seq<Line>, ignore: bool, st: ParseState)
    requires Coherent(st) && AllComplete(lines, ignore) && lines != []
    ensures Scan(lines, ignore, st) ==
              CompleteEvents(lines, ignore, st) + [Last(CompleteEvents(lines, ignore, st))]
  {
    var st1 := Absorb(st, lines[0], ignore).0;
    if |lines| > 1 {
      assert AllComplete(lines[1..], ignore) by {
        forall k | 0 <= k < |lines| - 1 ensures Complete(lines[1..][k], ignore) {
          assert lines[1..][k] == lines[k + 1];
        }
      }
      ScanComplete(lines[1..], ignore, st1);
    } else {
      assert lines[1..] == [];
    }
  }

  function Last(es: seq<Event>): Event
    requires es != []
  {
    es[|es| - 1]
  }

  lemma ParseLogComplete(lines: seq<Line>, ignore: bool)
    requires AllComplete(lines, ignore) && lines != []
    ensures ParseLog(lines, ignore) ==
              CompleteEvents(lines, ignore, Start) + [Last(CompleteEvents(lines, ignore, Start))]
  {
    ScanComplete(lines, ignore, Start);
  }

  /** With nesting ignored no event carries a nesting level. */
  lemma {:induction false} ScanIgnored(lines: seq<Line>, st: ParseState)
    requires Coherent(st) && st.nesting.None?
    ensures forall k :: 0 <= k < |Scan(lines, true, st)| ==> Scan(lines, true, st)[k].nesting.None?
  {
    if lines != [] {
      ScanIgnored(lines[1..], Absorb(st, lines[0], true).0);
    }
  }
}
