# Assembly-line balancing engine

This project models `run_line_balancing` in `algorithm.py`: the engine that assigns the tasks of
an assembly line to work stations. It takes a table of tasks, each with a duration in minutes and
a cell listing its predecessors, and a requested output rate in units per hour.

- The cycle time is `60 / output_rate`.
- The engine starts from `ceil(total_time / cycle_time)` stations.
- It orders the tasks with Kahn's algorithm over the precedence graph.
- The nested allocator `assign(k)` places each task, in that order, on the least-loaded station
  whose load stays within the cycle time. When no station has room, it uses the least-loaded
  station overall.
- `assign(k)` reports the largest station load as the achieved cycle time `ct`, and `60 / ct` as
  the achieved rate.
- The driver retries with one more station until the achieved rate reaches the requested one.

Modules, in dependency order:

- `Wrappers`: `Option` and `Result`.
- `Seqs`: distinctness, element sets and sums of sequences.
- `Cell`: `normalize_cell`. This covers Python's `str.strip`, ASCII upper-casing, and
  `ast.literal_eval` restricted to list displays of quoted strings. That parser is proved to
  invert a printer of such lists.
- `Rows`: the row filter, the splitting of predecessor cells into identifiers, and the
  `dict(zip(...))` tables.
- `Precedence`: the graph and in-degree construction, and Kahn's FIFO queue.
  - Both are methods with loops, each proved against a specification.
  - Kahn's algorithm is proved against `IsKahnOrder`, a characterisation of the order it
    produces: duplicate-free, topological, closed under predecessors, and the unique FIFO order.
- `Stations`: the station table, the greedy choice, the fold `Pack` that places a sequence of
  tasks, and the station labels.
- `Allocator`: `assign(k)`.
  - The method `Assign` replays the queue of `assign`, step by step.
  - It is proved equal to the function `AssignResult`, which is `Pack` over Kahn's order plus the
    error cases.
- `Balance`: the driver, the station-count search and the whole pipeline.

Durations and rates are exact reals. Python's exceptions are values of `Allocator.Failure`.

## Model

| member | source | states |
|---|---|---|
| Cell.Strip | algorithm.py:6 | the result has no leading or trailing Python whitespace and is no longer than the input |
| Cell.StripSlice | algorithm.py:6 | `strip` removes exactly a whitespace prefix and a whitespace suffix; the result is a slice of the input |
| Cell.StripKeepsStripped | algorithm.py:6 | stripping an already stripped string changes nothing |
| Cell.Upper | algorithm.py:10-12 | upper-casing keeps the length |
| Cell.UpperAt | algorithm.py:10-12 | upper-casing maps each character independently |
| Cell.UpperOfStripped | algorithm.py:10-12 | an upper-cased stripped string is canonical (no lower-case letters, no outer whitespace) |
| Cell.ParseList | algorithm.py:9 | a definition with no contract of its own (`ast.literal_eval` on a list display of quoted strings, `None` for the exception); `Cell.ParseShowList`, `Cell.PairParses`, `Cell.BareNameFailsToParse` and `Cell.EmptyListStays` characterise it |
| Cell.ParseShowList | algorithm.py:9 | the list parser reads back every list of printable strings written as a list display |
| Cell.PairParses | algorithm.py:9 | `['a','b']` parses to the two-item list |
| Cell.BareNameFailsToParse | algorithm.py:9-11 | a bracketed Python name other than `True`, `False` and `None`, such as `[A]`, is not a literal, so the parse fails |
| Cell.Normalize | algorithm.py:4-12 | the normalised cell is always canonical, and a missing cell gives the empty string |
| Cell.NormalizeKeeps | algorithm.py:6-12 | when the stripped cell is not a non-empty list literal, the result is one run of the raw cell, upper-cased character by character, and only whitespace lies outside that run |
| Cell.NormalizeUnwraps | algorithm.py:7-10 | a cell holding a non-empty list literal (items without single quotes, backslashes, line breaks or NUL) normalises exactly as the list display of those items does, so only the list it denotes matters |
| Cell.NormalizeShownList | algorithm.py:7-10 | normalising the display of a non-empty list of printable strings gives the first item, stripped and upper-cased |
| Cell.QuotedPairKeepsFirst | algorithm.py:7-10 | `['a','b']` normalises to `A` |
| Cell.BareNameStaysBracketed | algorithm.py:7-12 | a bracketed Python name such as `[a]` keeps its brackets and is only upper-cased |
| Cell.EmptyListStays | algorithm.py:10-12 | `[]` is an empty list, so it is kept as written |
| Rows.KeptRows | algorithm.py:16 | a row is kept exactly when it is in the input and its task cell is present and not blank |
| Rows.TaskIds | algorithm.py:17 | there is one task identifier per kept row |
| Rows.Times | algorithm.py:18 | there is one duration per kept row |
| Rows.RemoveAll | algorithm.py:21 | `replace(c, "")` removes every `c` and keeps every other character |
| Rows.Split | algorithm.py:21 | `split` yields at least one part, and no part contains the separator |
| Rows.JoinSplit | algorithm.py:21 | joining the parts of `split` with the separator gives back the input |
| Rows.ConcatSplit | algorithm.py:21 | the parts of `split`, concatenated, are the input with the separator removed |
| Rows.ConcatNonEmpty | algorithm.py:21 | dropping empty parts loses no characters |
| Rows.NonEmpty | algorithm.py:21 | the filter keeps exactly the non-empty parts |
| Rows.PredTokens | algorithm.py:20-22 | a definition with no contract of its own (the predecessor cell split into identifiers); `Rows.PredTokensSpec` characterises it |
| Rows.PredTokensSpec | algorithm.py:20-22 | a blank cell has no predecessors; otherwise the tokens are non-empty, contain no comma or space, and together spell the normalised cell without its spaces and commas |
| Rows.PredSets | algorithm.py:20-22 | there is one predecessor set per kept row |
| Rows.ZipMap | algorithm.py:24-25 | the keys of `dict(zip(keys, vals))` are exactly the keys listed |
| Rows.ZipMapLast | algorithm.py:24-25 | a key maps to the value paired with its last occurrence |
| Rows.Shape | algorithm.py:17-25 | both dictionaries have the task identifiers as their keys, and there are as many durations as tasks |
| Rows.ShapeAt | algorithm.py:16-25 | with unique identifiers, task `i` is the normalised cell of kept row `i`, with that row's duration and predecessor tokens |
| Precedence.Successors | algorithm.py:31-34 | `graph[p]` holds exactly the tasks that declare `p` as a predecessor |
| Precedence.SuccessorsDistinct | algorithm.py:31-34 | with unique tasks, no successor is listed twice |
| Precedence.SuccessorsOnce | algorithm.py:31-34 | each task occurs in `graph[p]` once if it declares `p` and never otherwise |
| Precedence.AddEdges | algorithm.py:33-35 | one task's edges append it to the list of each of its predecessors and raise its in-degree by its predecessor count, and nothing else changes |
| Precedence.BuildGraph | algorithm.py:31-35 | the graph lists each predecessor's successors in task order; the in-degree table has exactly the tasks as keys, each counting that task's declared predecessors |
| Precedence.ZeroIndegree | algorithm.py:37-48 | a definition with no contract of its own (the tasks whose in-degree is zero, in task order); `Precedence.SeedsFirst` and `Precedence.ReadyOfOrder` characterise the queue it seeds |
| Precedence.Ready | algorithm.py:37-43 | a task is released exactly when all its declared predecessors are done |
| Precedence.Release | algorithm.py:41-43 | after one dequeue the queue gains the successors that just became ready, in graph order, and every in-degree counts the predecessors not yet done |
| Precedence.ReleaseOne | algorithm.py:41-43 | one pass of the inner loop lowers the in-degree of exactly one successor by one, and keeps the queue and in-degree table consistent with the successors released so far |
| Precedence.Kahn | algorithm.py:37-43 | the order is duplicate-free, lists only tasks, is topological, holds exactly the tasks whose predecessors it holds, and is the FIFO order |
| Precedence.FifoOrderUnique | algorithm.py:37-43 | at most one sequence is the FIFO order, so the order is determined by the input |
| Precedence.SeedsFirst | algorithm.py:37 | the tasks without predecessors come first, in input order, and only they come first |
| Precedence.ReadyOfOrder | algorithm.py:48 | the seeds of the order are the seeds of the task list |
| Precedence.PredecessorsOrdered | algorithm.py:37-43 | a predecessor of an ordered task is itself an ordered task |
| Precedence.UnknownPredecessorExcluded | algorithm.py:35-43 | a task naming an identifier that is not a task never enters the order |
| Precedence.CycleSelfDependent | algorithm.py:37-43 | the tasks of a precedence cycle each depend on one of them |
| Precedence.SelfDependentExcluded | algorithm.py:37-43 | no task of a self-dependent set enters the order |
| Precedence.CycleExcluded | algorithm.py:37-43 | no task on a precedence cycle enters the order |
| Stations.Empty | algorithm.py:46 | the initial table has `k` stations, each with no task and load zero |
| Stations.GreedyChoiceUnique | algorithm.py:52-53 | the greedy rule (the least-loaded feasible station, or the least-loaded station when none is feasible, with ties to the first) picks at most one station |
| Stations.Feasible | algorithm.py:52 | a definition with no contract of its own (the `feas` comprehension); `Stations.FeasibleSpec` characterises it |
| Stations.FeasibleSpec | algorithm.py:52 | `feas` lists exactly the stations whose load plus the duration stays within the cycle time, in table order |
| Stations.AllStationsSpec | algorithm.py:52 | the fallback `st.keys()` lists every station in table order |
| Stations.FirstMin | algorithm.py:53 | the station `min` returns is one of the candidates; `Stations.FirstMinSpec` adds that it has least load and is the first such |
| Stations.FirstMinSpec | algorithm.py:53 | `min` returns a listed station of least load that no earlier listed station ties |
| Stations.Candidates | algorithm.py:52-53 | a definition with no contract of its own (`feas or st.keys()`); `Stations.CandidatesSpec` characterises it |
| Stations.CandidatesSpec | algorithm.py:52 | the candidate list is never empty, and holds the feasible stations, or all stations when none is feasible |
| Stations.Choose | algorithm.py:52-53 | the chosen station exists |
| Stations.ChooseIsGreedy | algorithm.py:52-53 | the choice satisfies the greedy rule |
| Stations.ChooseWithinCap | algorithm.py:52-53 | when some station has room, the chosen one does |
| Stations.Pack | algorithm.py:46-54 | packing keeps exactly `k` stations |
| Stations.Place | algorithm.py:54 | a definition with no contract of its own (adding the task and its duration to the chosen station); `Stations.PlaceGathered` and `Stations.PlaceSum` characterise it |
| Stations.PlaceGathered | algorithm.py:54 | placing a task adds exactly that task to the stations |
| Stations.PlaceSum | algorithm.py:54 | placing a task raises the total load by its duration |
| Stations.PackGathered | algorithm.py:50-54 | the stations together hold exactly the placed tasks, with their multiplicities |
| Seqs.Sum | algorithm.py:27 | a definition with no contract of its own (`sum` over a list of durations); `Stations.PackTotal` and `Balance.StartCount` state what it is used for |
| Stations.PackTotal | algorithm.py:50-54 | the station loads add up to the total duration of the placed tasks |
| Stations.PackLoads | algorithm.py:50-54 | each station holds only placed tasks, and its load is the total duration of its tasks |
| Stations.PackExactlyOnce | algorithm.py:50-54 | with distinct tasks, each placed task is in exactly one station |
| Stations.PackWithinCap | algorithm.py:52-54 | with at least as many stations as tasks and every duration within the cycle time, no station exceeds the cycle time |
| Stations.MaxOf | algorithm.py:58 | `max` returns a load in the list, and no load exceeds it |
| Stations.LoadCovers | algorithm.py:54-58 | with non-negative durations, a station's load is at least each of its task durations |
| Stations.CycleTimeCoversTasks | algorithm.py:58 | with non-negative durations, the reported cycle time is at least every task's duration |
| Stations.Decimal | algorithm.py:46 | the station number is written with decimal digits only |
| Stations.DecimalRoundTrip | algorithm.py:46 | the decimal digits read back as the station number |
| Stations.Label | algorithm.py:46 | a definition with no contract of its own (`f"Station {i+1}"`); `Stations.LabelInjective` and `Stations.DecimalRoundTrip` characterise it |
| Stations.LabelInjective | algorithm.py:46 | different stations get different labels |
| Allocator.Labels | algorithm.py:46 | `assign(k)` creates `k` labels |
| Allocator.LabelsDistinct | algorithm.py:46 | the `k` labels are distinct, so the table really has `k` stations |
| Allocator.FirstMissing | algorithm.py:55-56 | it finds the first successor missing from `indeg2`, and finds none exactly when all are present |
| Allocator.EscapeSpec | algorithm.py:47-56 | no escape exactly when every successor of an ordered task is ordered; an escape is an unordered task with an ordered predecessor |
| Allocator.AssignResult | algorithm.py:45-59 | `assign(k)` fails for lack of stations exactly when `k <= 0` |
| Allocator.AssignKeyError | algorithm.py:47-56 | with stations, `assign` raises `KeyError` exactly when an unordered task has an ordered predecessor, and the key is such a task |
| Allocator.AssignPartition | algorithm.py:46-54 | a successful `assign(k)` has `k` distinct labels and `k` stations, and each ordered task sits in exactly one station |
| Allocator.AssignLoads | algorithm.py:50-58 | each station's load is the total duration of its tasks; the loads add up to the total duration of the order; `ct` is the largest load |
| Allocator.ReleaseKnown | algorithm.py:55-57 | releasing a dequeued task finds the first successor missing from `indeg2`, or else queues the successors that became ready and keeps `indeg2` counting the predecessors not yet done |
| Allocator.Dequeue | algorithm.py:50-57 | one pass of the `while q` loop either raises the error `assign(k)` raises, or places the next task of the order and keeps the replay invariant one step further on |
| Allocator.Conclude | algorithm.py:58-59 | once the queue is empty, `max` over the loads and `60 / ct` give exactly the result of `assign(k)`, including the `ValueError` for no station |
| Allocator.Assign | algorithm.py:45-59 | the queue replay of `assign(k)` dequeues the tasks in Kahn's order and returns exactly `AssignResult`, raised errors included |
| Balance.Ceil | algorithm.py:29 | `math.ceil`: the least integer at or above the argument |
| Balance.CeilScaled | algorithm.py:29 | `ceil(x / c)` stations of capacity `c` cover `x`, and one fewer do not |
| Balance.StartCount | algorithm.py:27-29 | for a positive rate, the starting count is the least number of full cycles that covers the total duration |
| Balance.Search | algorithm.py:61-64 | a balanced result is a tried count whose rate meets the target; a raised failure is what a tried count raised; a result still searching has used up every round |
| Balance.SearchFirst | algorithm.py:61-64 | every count before the returned one was tried and fell short of the target |
| Balance.SearchRaisedFirst | algorithm.py:61-64 | an exception comes from the first count that did not fall short: every count tried before it fell short of the target |
| Balance.SearchMoreRounds | algorithm.py:61-64 | once the search stops, more rounds give the same result |
| Balance.SearchStopsAt | algorithm.py:61-64 | the search stops once it reaches a count that does not fall short |
| Balance.BalancedWithinCycle | algorithm.py:52-63 | when the search succeeds, the achieved cycle time is positive and at most `60 / output_rate`, and so is every station load |
| Balance.LongTaskRetried | algorithm.py:58-64 | a task longer than the cycle time makes every station count fall short of the target |
| Balance.SearchNeverStops | algorithm.py:61-64 | with such a task, no number of rounds ends the search |
| Balance.FirstTooLong | algorithm.py:28-64 | it finds a task longer than the cycle time, and finds none exactly when every task fits |
| Balance.CheckedSearch | algorithm.py:61-64 | it rejects up front exactly the inputs that have a task longer than the cycle time, and otherwise it is the search |
| Balance.EnoughStations | algorithm.py:52-63 | with every task within the cycle time, one station per task meets the target |
| Balance.CheckedSearchStops | algorithm.py:61-64 | with non-negative durations and a positive rate, the checked search always ends within one more round than there are tasks |
| Balance.SearchRound | algorithm.py:62-63 | one round stops exactly when the count does not fall short, and then it gives the search's result |
| Balance.SearchStations | algorithm.py:61-64 | the loop returns exactly what the search returns |
| Balance.RunLineBalancing | algorithm.py:14-66 | a zero output rate raises `ZeroDivisionError`; otherwise the order is Kahn's order of the shaped table, and the result is the search from the starting count |

## Left out

- I/O and the table library: the pandas data frame becomes a sequence of `Row` values. A missing
  task or predecessor cell is `None`, and durations are given as numbers. A conversion failure of
  `astype(float)` is not modelled.
- Floating point: durations, cycle times and rates are exact reals. Rounding in `sum`, `60 / x` and
  `math.ceil` is not modelled.
- `str.upper` is modelled for ASCII letters only.
- `ast.literal_eval` accepts many literal forms. The model parses only list displays whose items
  are quoted strings without escapes. For example, `"[1]"` normalises to `"1"` in Python, but the
  model keeps `"[1]"`.
- The parser also rejects string forms that Python accepts: prefixed strings such as `u'a'`,
  implicit concatenation such as `'a' 'b'`, triple-quoted strings and escape sequences. Such a
  cell is kept as written instead of being unwrapped.
- `str(p[0])` of a non-string list item is not modelled, for the same reason.
- Duplicate task identifiers: the pipeline requires distinct identifiers after normalisation
  (`Distinct(TaskIds(rows))`). With duplicates, Python's dictionaries keep the last row for a key
  while the task list keeps both rows.
- Balance.SearchStations: the unbounded `while True` is bounded by a number of rounds. A run that
  uses them all up returns `Searching(n)` instead of looping on. `SearchNeverStops` shows that the
  unbounded loop need not end.
- Allocator.Failure: the two `ValueError`s (`min` over no station, and `max` over no station) are
  one failure, `EmptyStations`.
- The returned station dictionary is modelled by its labels (`Labels(k)`) and a table of loads
  and task lists indexed by station position. The `"tasks"`/`"time"` inner dictionaries are that
  table.
- The web front end, the PDF report and the database modules are not part of this model. They
  only display or store what `run_line_balancing` returns.

## Findings

| source | as written | input that shows it | evidently intended | confidence | as-written member | corrected member |
|---|---|---|---|---|---|---|
| algorithm.py:61-64 | `while True` retries with one more station until `60 / ct >= output_rate`; `ct` is at least the longest task's duration, so a task longer than `60 / output_rate` makes every count fall short and the loop never ends | one task of 5 minutes with an output rate of 20 per hour (cycle time 3 minutes) | reject a task longer than the cycle time before the search; the search then ends by the time there is one station per task | not executed | Balance.SearchNeverStops | Balance.CheckedSearchStops |
