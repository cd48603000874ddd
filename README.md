# cmake-profile-stats: the trace-tree engine in Dafny

cmake-profile-stats reads the log that cmake writes with `--trace` and rebuilds the tree
of commands it ran. Every line of that log becomes a node. A node lasts from its own
timestamp to the next line's timestamp. A node's duration also includes the durations of
everything nested below it. The tool then prints the heaviest subtrees above a threshold.

This project models the engine of both versions of the script.

- `cmake-profile-stat.py` is the current version. It reads cmake's JSON trace format
  (`--trace-format=json-v1`).
- `cmake_profile_stat.py` is the older version. It reads the plain `(time) (nesting)
  file(line):  code` lines and files each finished top-level trace in a shelf.

Nodes live in an arena (`TraceArena.Arena`). Each node has a parent index, with -1
meaning "no parent", plus an ordered children list, a duration and its trace info.
Creating a node adds its duration to every node above it, which is what
`_CmakeTrace.__init__` / `CmakeTrace.__init__` do. The arena always keeps this invariant:

- each node's duration is its own time plus its children's durations;
- the top-level durations add up to the sum of all own times (`Forest.Conserved`).

Times are whole ticks. One tick is the flush's `10E-7` seconds.

Modules:

- **Shared**
  - `Wrappers`: Option and Result.
  - `Forest`: parent links, depth, walking up, the last child, and the duration
    bookkeeping.
  - `TraceArena`: the arena class and `store_trace` snapshots as `Tree` values.
  - `Ordering`: `sorted(..., reverse=True)` as insertion sort, on keys that are numbers or
    strings.
- **Current version**
  - `TraceText`: `_CmakeTraceInfo` and its two renderings.
  - `TraceLog`: `_parse_cmake_log`, including the `else`/`elseif` nesting workaround.
  - `Placement`: where `_update_traces` hangs a node. Either the declared nesting
    difference decides, or the file/line heuristic does.
  - `Collector`: the `_update_traces` and `_collect_stats` loops, over the arena.
  - `Report`: `_print_traces`.
- **Older version**
  - `LegacyText`: `CmakeTraceInfo`, its key, and the trace-line regular expression.
  - `LegacyCollector`: `update_trace`, `parent_trace`, `add_new_trace` and
    `collect_stats`, with the shelf as a map. Every failing `assert` and every uncaught
    exception is a `Crash` value.
  - `LegacyReport`: `print_trace` and the top-level print loop.

## Model

| member | source | states |
|---|---|---|
| Forest.UpIsAncestor | cmake_profile_stat.py:93-96 | Walking `k` parents up from a node succeeds exactly when the node has at least `k` levels above it. The node reached is an ancestor exactly `k` levels higher. |
| Forest.LastChild | cmake-profile-stat.py:182 | The result is a child of `q`, and no child of `q` was created after it. The result is None exactly when `q` has no child. |
| Forest.LastOfChildren | cmake-profile-stat.py:140 | `subtraces[-1]`, the last entry of a node's children list, is its most recently created child. The list is empty exactly when there is no child. |
| Forest.AppendChild | cmake-profile-stat.py:118 | After appending child `n` to `p`, the children lists are the old ones, with `n` added at the end of `p`'s list and an empty list for the new node. |
| Forest.AddPreserves | cmake-profile-stat.py:113-125 | Creating a node with duration `d` and adding `d` to every ancestor keeps the duration invariant. |
| Forest.DurationSplit | cmake-profile-stat.py:113-125 | In a conserved arena, a node's duration is its own time plus the durations of its listed children. |
| TraceArena.Arena.constructor | cmake-profile-stat.py:113-118 | An empty arena satisfies the invariant. |
| TraceArena.Arena.AddNode | cmake-profile-stat.py:113-125 | The new node is appended with its parent, info and duration, and it ends its parent's children list. Every node above it gains `d` and no other node changes. The invariant is kept. |
| TraceArena.Arena.RaiseAbove | cmake-profile-stat.py:119-125 | The walk up from the parent adds `d` to exactly the nodes at and above it, and changes nothing else. |
| TraceArena.SnapshotConserves | cmake-profile-stat.py:315-317 | The stored tree of a node carries the node's duration, which is its own time plus its stored subtraces' durations. Every stored node lasts at least as long as its subtraces together. |
| TraceArena.SumDurationsAt | cmake-profile-stat.py:328 | The stored traces' durations add up to the sum of the durations of the nodes they were taken from. |
| TraceText.NatString | cmake-profile-stat.py:91 | `str` of a line number is a non-empty string of decimal digits. |
| TraceText.NatStringValue | cmake-profile-stat.py:91 | Reading that digit string back yields the number. |
| TraceText.Dots | cmake-profile-stat.py:102 | The padding is exactly `k` dots. |
| TraceText.AdjustFileShape | cmake-profile-stat.py:90-102 | The fitted file name fails exactly when it must be shortened to below 5 characters; otherwise it has exactly the field width. A short name is padded with dots. A long name keeps its head and tail around `...`, then dot padding. |
| TraceText.LabelWidth | cmake-profile-stat.py:90-110 | The adjusted label fails exactly when the file field is too narrow. Otherwise its length is the width plus the brackets, parentheses and code. With a width that exactly fits, it equals the plain label. |
| TraceLog.BuildCommandQuotes | cmake-profile-stat.py:196-199 | The command text is `cmd(` followed by each argument in double quotes, separated by spaces, then `)`. No quotes are written when there are no arguments. |
| TraceLog.Absorb | cmake-profile-stat.py:209-225 | A line yields an event exactly when every field it needs decodes. The event carries the line's time and trace info. Its nesting is the frame, plus one for `else`/`elseif`, and is left as before when nesting is ignored. A line that fails part way still replaces the time once its time decodes, and the trace info once all info fields decode. Only a yielding line changes the nesting. Trace info is never set without a time. |
| TraceLog.Final | cmake-profile-stat.py:205-225 | The reader's state after every line: trace info, once set, stays set, and is never set without a time. |
| TraceLog.ParseCmakeLog | cmake-profile-stat.py:195-230 | The reader loop yields exactly the events of the specification function `ParseLog`. |
| TraceLog.ParseLogCount | cmake-profile-stat.py:209-230 | There is one event per complete line, plus one final event, the flush after the loop, when any line ever set trace info. |
| TraceLog.ScanLast | cmake-profile-stat.py:205-230 | From any coherent state, the reader yields something exactly when its final state holds trace info. Its last event is then that final state, which need not repeat an earlier event. |
| TraceLog.ParseLogLast | cmake-profile-stat.py:205-230 | The whole log yields something exactly when some line set trace info, and its last event is the reader's final state. |
| TraceLog.ParseLogComplete | cmake-profile-stat.py:227-230 | When every line is complete, the events are those lines' events followed by the last one again. |
| TraceLog.ScanIgnored | cmake-profile-stat.py:219-222 | With nesting ignored, no event carries a nesting level. |
| Placement.DeclaredMeaning | cmake-profile-stat.py:170-187 | Declared placement moves the cursor by exactly the nesting difference: it stays, goes up `-diff` ancestors, or goes to the most recent child. It fails exactly on a jump of more than one, a missing child, or too few ancestors. |
| Placement.HeuristicChoice | cmake-profile-stat.py:138-169 | Without nesting, the parent is the parent of the frame with the closest line in the same file among the frames walked up from the cursor's last child. Ties go to the innermost such frame. When no frame matches, the parent is the first frame. |
| Placement.HeuristicInRange | cmake-profile-stat.py:164-169 | The heuristic always picks an existing node. |
| Collector.Collector.constructor | cmake-profile-stat.py:233-241 | Collection starts with the sentinel node alone and an empty `all_traces`. |
| Collector.Collector.HeuristicScan | cmake-profile-stat.py:138-166 | The `enumerate_frames` loop returns the parent the heuristic specification chooses, and that parent is an existing node. |
| Collector.Collector.DeclaredWalk | cmake-profile-stat.py:170-187 | The walk up or down returns the declared placement or its failure. |
| Collector.Collector.UpdateTraces | cmake-profile-stat.py:128-192 | One call either fails and changes nothing, or appends one node. The node has the previous line's info and the clamped non-negative gap, and sits under the chosen parent. It joins `all_traces` exactly when that parent is the sentinel. |
| Collector.CollectStats | cmake-profile-stat.py:233-267 | Node `j + 1` records event `j` for every placed event: its info, its own time, and the placement the rules chose in the arena as it was then. All events are placed exactly when no placement fails. On a failure, the next event's placement is the one that failed. |
| Collector.PlaceEvent | cmake-profile-stat.py:242-267 | One loop step records the next event, or fails and leaves the arena and `all_traces` unchanged. |
| Collector.Advance | cmake-profile-stat.py:243-258 | One loop round places the previous event, if there is one, and takes over the current event's nesting, time and info. It stops at a placement failure, with nodes for exactly the earlier events. |
| Collector.Flush | cmake-profile-stat.py:259-267 | The loop's `else` branch places the last event, if any. The run succeeds exactly when every event has its node. |
| Collector.CursorDepth | cmake-profile-stat.py:245-255 | With declared nesting, the parent used for each event sits at the depth of the nesting before it. |
| Collector.NestingHonoured | cmake-profile-stat.py:170-187 | With declared nesting, every event's node sits at its nesting depth, and the flushed last event is a sibling of the one before. |
| Collector.WholeDurationIsOwnTime | cmake-profile-stat.py:328 | `whole_duration`, the sum of the stored top-level durations, equals the sentinel's duration, which is the sum of every node's own time. |
| Collector.OwnIsGaps | cmake-profile-stat.py:132-134 | After a full run, the nodes' own times are exactly the clamped gaps between consecutive events. |
| Collector.GapsSpanLog | cmake-profile-stat.py:264-267 | The clamped gaps plus the final tick are never less than the span from the first event to the last. They equal it when the clock never goes backwards. |
| Collector.CollectedTotal | cmake-profile-stat.py:233-267 | After a full run with a non-decreasing clock, the reported whole duration is the last time minus the first plus one tick. With no events, nothing is listed. |
| Collector.GapTotalBounds | cmake-profile-stat.py:260-267 | The clamped gaps never add up to less than 0, and those of a whole run, with its final one-tick gap, to at least one tick. |
| Collector.WholePositive | cmake-profile-stat.py:233-267 | After a full run, for any clock, the whole duration is at least one tick and at least the last time minus the first plus one tick. A non-empty forest therefore always has a positive whole duration. |
| Report.Arrange | cmake-profile-stat.py:272-273 | The siblings are visited as a permutation of the children: in non-increasing duration with `-s`, and in their stored order otherwise. |
| Report.Walk | cmake-profile-stat.py:271-292 | `print_traces_loop` prints only lines deeper than its indent, within the `-d` limit when one is given, and at or above the threshold. |
| Report.Siblings | cmake-profile-stat.py:275-292 | The sibling loop prints a sibling only while the depth and threshold tests pass, and its subtree one level deeper. So every line it prints is within depth and at or above the threshold. |
| Report.PrintTraces | cmake-profile-stat.py:270-294 | No printed line is deeper than `-d` when it is given, and none is below the threshold. |
| Report.WalkThreshold | cmake-profile-stat.py:271-292 | With a lower threshold and the same other options, the loop prints every line it prints with the higher one. The sibling order does not depend on the threshold. |
| Report.SiblingsThreshold | cmake-profile-stat.py:275-292 | A sibling loop that goes on under the higher threshold goes on under the lower one, so its lines are a subset of the lower threshold's lines. |
| Report.PrintThreshold | cmake-profile-stat.py:270-294 | Lowering `-t` only adds report lines. |
| Report.WalkTop | cmake-profile-stat.py:270-294 | The lines at a level are the longest run of leading siblings that are within depth and at or above the threshold. With `-1` at the top only the first is kept. With `-s` they are in non-increasing duration. |
| Report.SubtreeHidden | cmake-profile-stat.py:289 | A subtree's own lines are all deeper than the line that introduces it. |
| Ordering.SortDesc | cmake-profile-stat.py:273 | Sorting returns a permutation of its input. |
| Ordering.SortDescSorted | cmake-profile-stat.py:273 | The sorted sequence is in non-increasing key order. |
| LegacyText.Reverse | cmake_profile_stat.py:52 | `[::-1]`: the same length, with element `i` taken from position `len - 1 - i`. |
| LegacyText.KeyIdentifies | cmake_profile_stat.py:50-52 | Two keys are equal only for the same file and line, when line numbers are digits and file names do not end in a digit. |
| LegacyText.KeyCollision | cmake_profile_stat.py:50-52 | Without that condition two different traces share a key (`a1` line 2, and `a` line 21). |
| LegacyText.MatchRender | cmake_profile_stat.py:107-129 | A line that cmake writes from groups the pattern allows matches, and yields those groups back, with or without a final newline. |
| LegacyText.MatchIsRender | cmake_profile_stat.py:107-129 | Conversely, every matched line is the rendering of its groups, and the groups hold only what the pattern allows. |
| LegacyCollector.FiledCount | cmake_profile_stat.py:104 | A shelf in its invariant has exactly two more entries than `traceKeys`. |
| LegacyCollector.FileCount | cmake_profile_stat.py:102-104 | After filing a trace, the count assertion holds exactly when its key is not one of the two reserved names. |
| LegacyCollector.Target | cmake_profile_stat.py:80-85 | The new node hangs under `appendTrace`, or, when the nesting grew, under its latest child one level deeper. The descent fails exactly when there is no trace or it has no subtrace. |
| LegacyCollector.FilingTop | cmake_profile_stat.py:98-102 | When `appendTrace` is at the depth the nesting says, `add_new_trace` finds a node and it is a top-level trace. |
| LegacyCollector.SettledShape | cmake_profile_stat.py:140-147 | On well-nested lines the end-of-step checks never fail, and a drop in nesting leaves `appendTrace` one level above the new line. |
| LegacyCollector.LatestAt | cmake_profile_stat.py:137-147 | The latest of the first `k` lines at a given nesting, or -1 when none of them is at it. |
| LegacyCollector.NoLevelZero | cmake_profile_stat.py:141-144 | With well-nested lines no line is at nesting 0, so a line back at nesting 1 has no caller and building restarts from no trace. |
| LegacyCollector.CallerExists | cmake_profile_stat.py:133-135 | With well-nested lines, every line deeper than 1 has an earlier line one level up. |
| LegacyCollector.AncestorIsLatest | cmake_profile_stat.py:93-96 | When every node hangs under its line's caller, walking `k` parents up from a node reaches the node of the latest line `k` levels shallower. |
| LegacyCollector.ParentsMore | cmake_profile_stat.py:80-91 | Hanging the waiting line under its caller keeps every node under its line's caller as more lines arrive. |
| LegacyCollector.AppendCaller | cmake_profile_stat.py:137-152 | After each well-nested line, `appendTrace` (through its last child when the nesting grew) is the node of that line's caller. |
| LegacyCollector.JumpNotNested | cmake_profile_stat.py:134-135 | A line whose nesting grows by more than one breaks well-nestedness. |
| LegacyCollector.LegacyCollector.constructor | cmake_profile_stat.py:196-199 | Collection starts with no node, no start time, and a shelf holding only the two reserved entries. |
| LegacyCollector.LegacyCollector.UpdateTrace | cmake_profile_stat.py:69-91 | The first line records the start time; a second attempt fails. Later lines fail on a non-positive duration or a failed descent, changing nothing. Otherwise they append one node with the previous info and the gap under `Target`. |
| LegacyCollector.LegacyCollector.Hang | cmake_profile_stat.py:80-91 | The new node is hung under the `Target`, or it fails with that target's crash and changes nothing. Every node above gains the duration. The result is the target, or the new node when it has no parent. |
| LegacyCollector.LegacyCollector.FindTarget | cmake_profile_stat.py:80-83 | Reading the children lists gives exactly the `Target`, including its two failures. |
| LegacyCollector.TargetDepth | cmake_profile_stat.py:80-91 | When the loop state matches the nesting, the target exists one level above the waiting line. It is no node exactly when that line is at the top level. |
| LegacyCollector.LegacyCollector.ParentTrace | cmake_profile_stat.py:93-96 | The loop walks exactly `levels` parents up (none for a negative count), or reports falling off the top. |
| LegacyCollector.LegacyCollector.AddNewTrace | cmake_profile_stat.py:98-104 | It files the stored form of the node `prevNesting - 2` levels up under its key, with its duration, and updates `traceKeys`. It fails with no node there, or after filing a reserved key. |
| LegacyCollector.LegacyCollector.File | cmake_profile_stat.py:101-104 | Node `i`'s stored form goes on the shelf under its key, with its duration in `traceKeys`. The count assertion passes exactly when the key is not reserved, and then the shelf invariant holds again. |
| LegacyCollector.LegacyCollector.Settle | cmake_profile_stat.py:140-147 | The end-of-step checks give the specification's outcome: stay, walk up, or file and restart. A line back at nesting 1 files the stored form and duration of the node `add_new_trace` finds. Otherwise the shelf and `traceKeys` are unchanged. |
| LegacyCollector.LegacyCollector.Feed | cmake_profile_stat.py:131-152 | One matched line fails on a nesting jump or a non-increasing time. Otherwise it advances the loop state. On a well-nested, increasing, unreserved prefix it always succeeds. On success the shelf still holds every finished top-level trace (`OnShelf`), now for the log one line longer. |
| LegacyCollector.LegacyCollector.Take | cmake_profile_stat.py:117-152 | An unmatched line changes nothing. An unconvertible time or nesting crashes. A matched line is fed, and the loop invariant is kept, the shelf invariant `OnShelf` included. |
| LegacyCollector.LegacyCollector.Consume | cmake_profile_stat.py:117-152 | Line `k` either extends the loop invariant from the records of the first `k` lines to those of the first `k + 1`, or crashes. A crash happens only on a log that fails to convert or is not well formed. On success the shelf holds the finished top-level traces of the first `k + 1` lines. |
| LegacyCollector.LegacyCollector.Finish | cmake_profile_stat.py:154-160 | It crashes with `EmptyLog` exactly on an empty log, and a well-nested log with no reserved key never fails. On success, every line has its node, info and gap, the last lasting one tick. With well-nested lines every node hangs under its line's caller. The result is the last time minus the first. With well-nested lines the final `add_new_trace` leaves `traceKeys` holding exactly the keys of the top-level traces. Under each key the shelf holds the stored form, and `traceKeys` the duration, of the latest top-level trace with that key, in the arena's final state (`FiledTops`). |
| LegacyCollector.LegacyCollector.CloseLast | cmake_profile_stat.py:156-157 | The last line's node lasts one tick and every line then has its node and gap. On well-nested lines it never fails. `add_new_trace` then finds the trace opened by the latest nesting-1 line, and filing it makes that trace the latest with its key (`ReadyToFile`). |
| LegacyCollector.CollectStats | cmake_profile_stat.py:106-160 | A conversion error crashes and an empty log crashes. Success means one node per matched line with its gap, and a whole duration equal to the log's span. With well-nested lines each node sits at its line's nesting depth, under the node of the latest earlier line one level up. Every well-formed log succeeds. With well-nested lines, `traceKeys` ends up keyed by exactly the top-level traces' keys. Under each key the shelf holds the stored form, and `traceKeys` the duration, of the latest top-level trace with that key, as the arena finally stands. |
| LegacyCollector.LegacyCollector.Advance | cmake_profile_stat.py:140-152 | The second half of a matched line, after its node is placed: the end-of-step checks and the new loop variables. It keeps the loop invariant and `OnShelf`, and on steady input it succeeds. |
| LegacyCollector.TopsLatest | cmake_profile_stat.py:102-103 | Filing overwrites under a key. The key table of the first `m` nodes maps each key to a top-level node with that key, and each top-level node's key to that node or a later one. |
| LegacyCollector.TopsKeys | cmake_profile_stat.py:103 | The table's keys are exactly the keys of the top-level nodes. |
| LegacyCollector.TopsPrefix | cmake_profile_stat.py:85-90 | Creating more nodes leaves the table of the first `m` as it was. |
| LegacyCollector.TopsSkip | cmake_profile_stat.py:85-90 | Nodes hung below another node do not change the table. |
| LegacyCollector.ShelvesFile | cmake_profile_stat.py:102-103 | Filing node `o` under its key puts its stored form and its duration in the shelf and `traceKeys`, and the table now names `o` for that key. |
| LegacyCollector.FiledLatest | cmake_profile_stat.py:102-103 | A shelf that follows the table of all nodes has `traceKeys` keyed by exactly the top-level keys. Each key holds the stored form and duration of the latest top-level node with that key. |
| LegacyCollector.UnderTop | cmake_profile_stat.py:137-147 | With well-nested lines, every node lies in the trace of the latest nesting-1 line up to its own. |
| LegacyCollector.OneTop | cmake_profile_stat.py:85-90 | A node lies in the trace of one top-level node only. |
| LegacyCollector.PlaceTop | cmake_profile_stat.py:80-90 | On well-nested lines the waiting line hangs under its caller, inside the trace of the latest nesting-1 line. No top-level node comes after that one. |
| LegacyCollector.FilingOpen | cmake_profile_stat.py:98-101 | `parent_trace(appendTrace, prevNesting - 2)` from where the waiting line went reaches the node of the latest nesting-1 line. |
| LegacyCollector.ShelfPlace | cmake_profile_stat.py:85-90 | Hanging the waiting line leaves the stored forms and durations of the filed traces as they were. The new node joins the open trace, not theirs. |
| LegacyCollector.ShelfHang | cmake_profile_stat.py:80-101 | After the placement the filed traces are still on the shelf. `add_new_trace` from the new `appendTrace` would file the open trace, which then becomes the latest with its key. |
| LegacyCollector.ShelfStep | cmake_profile_stat.py:137-147 | Every matched line keeps `OnShelf`. The waiting line joins the open trace, and a line back at nesting 1 files that trace and opens the next. |
| LegacyCollector.FeedKeeps | cmake_profile_stat.py:137-152 | A matched line that passes its checks keeps both the loop invariant and `OnShelf`. |
| LegacyCollector.CloseKeeps | cmake_profile_stat.py:154-158 | The flush's placement completes the run as `Collected` says. On well-nested lines `add_new_trace` from there files the open trace. |
| LegacyCollector.FileFinal | cmake_profile_stat.py:158 | The flush's `add_new_trace` files the last trace, after which the shelf holds every top-level trace as `FiledTops` says. |
| TraceArena.SnapshotOutside | cmake-profile-stat.py:113-125 | Adding a node leaves the stored form of every node that its parent is not below as it was. |
| LegacyReport.Arrange | cmake_profile_stat.py:170-173 | The subtraces are visited as a permutation, in non-increasing duration or line order. |
| LegacyReport.PrintTracePermutes | cmake_profile_stat.py:162-175 | `print_trace` prints the same lines as the unsorted pruned tree, only reordered. |
| LegacyReport.PrintTrace | cmake_profile_stat.py:162-175 | Every output is a trace line (no blank line), at the starting indent or deeper, and at or above the threshold. |
| LegacyReport.PrintEach | cmake_profile_stat.py:170-174 | The subtrace loop prints only trace lines at its indent or deeper, at or above the threshold. |
| LegacyReport.PrintThreshold | cmake_profile_stat.py:162-175 | With a lower threshold and the same other options, `print_trace` prints every line it prints with the higher one. |
| LegacyReport.EachThreshold | cmake_profile_stat.py:170-174 | The same holds for the subtrace loop. |
| LegacyReport.PrintOrder | cmake_profile_stat.py:162-175 | A trace prints something exactly when it is at or above the threshold. Its line comes first, and the lines one level in are its heavy subtraces in the arranged order. |
| LegacyReport.OrderedShelved | cmake_profile_stat.py:210-212 | Every sorted key has its trace on the shelf, with the duration the keys list gives it. |
| LegacyReport.Report | cmake_profile_stat.py:210-214 | The report fails (`ZeroDivisionError`) exactly when the whole duration is zero and some trace was filed. |
| LegacyReport.Top | cmake_profile_stat.py:210-214 | Every trace line of the top-level loop is at or above the threshold. With `-1` it prints no empty line. |
| LegacyReport.TopThreshold | cmake_profile_stat.py:210-214 | With a lower threshold the top-level loop goes on at least as long, so it prints every line, empty ones included, that it prints with the higher one. |
| LegacyReport.ReportThreshold | cmake_profile_stat.py:210-214 | Lowering `-t` does not change whether the report fails, and it only adds lines. |
| LegacyReport.ReportTops | cmake_profile_stat.py:210-214 | The top-level lines are the filed traces in non-increasing duration. Printing stops at the first one below the threshold, or after the first with `-1`, and none is skipped. |

## Left out

- Reading and decoding input is not modelled. `json.loads`, Python's `float()` and
  `int()`, `fileinput` and the reading of the trace file are inputs instead:
  - decoded JSON records (`TraceLog.Line`);
  - the conversion functions `toTicks` and `toInt`;
  - the lines as a sequence.
- Floating point is not modelled. Times are whole ticks of `10E-7` seconds. Percentages,
  `%f` formatting and the printed `sec` values are not modelled. Thresholds are compared
  as exact rationals.
- Printing and stderr are not modelled. The reports are modelled as sequences of lines
  (level, trace info, duration).
- Not modelled:
  - `argparse` (the options are records);
  - `shelve` I/O and the deletion of the shelf file when collection fails;
  - the `report_only` paths.

  The report functions take the stored forest or shelf as input, so report-only runs
  are covered as far as the printing goes.
- Python 2 dictionary iteration order is an input (`items`), constrained to enumerate
  `traceKeys` exactly once per key.
- `sys.maxint` is modelled as an absent distance (`None`).
- The `isinstance(previous_timeval, float)` assertion at cmake-profile-stat.py:131 is not
  modelled. Times are integers by construction.
- Ordering.SortDesc: sort stability is not stated. The model is an insertion sort that
  puts an element after the existing elements with an equal key. This matches Python's
  stable `sorted(..., reverse=True)`, but it is not proved against it.
- Report.PrintTraces: requires a positive whole duration. With an empty forest the source
  prints nothing, and after a complete run a non-empty forest always has a positive whole
  duration, whatever the clock does (Collector.WholePositive).
- LegacyCollector.CollectStats: what is filed is stated only for well-nested logs. A log
  that is not well nested but does not crash still files traces, but `FiledTops` is not
  proved for it.
- LegacyCollector.CollectStats: success does not imply well-nested lines. Lines at
  nesting 0 can pass through without a crash. The depth and parent statements of
  `Collected` hold only for well-nested logs.
- `CmakeTraceInfo.__str__` and `_CmakeTraceInfo.to_string_plain` are modelled as plain
  functions (`LegacyText.Str`, `TraceText.ToStringPlain`). Their shape is stated through
  TraceText.LabelWidth.
