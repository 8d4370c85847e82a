/**
 * The driver `run_line_balancing`: it shapes the task table, derives the cycle time
 * `60 / output_rate` and the starting station count `ceil(total_time / cycle_time)`,
 * builds the precedence graph and Kahn's order, and then calls `assign(n)` for
 * `n`, `n + 1`, ... until the rate `assign` reports reaches the requested output rate.
 */
module Balance {
  import opened Wrappers
  import opened Seqs
  import opened Rows
  import opened Precedence
  import opened Allocator
  import Stations

  /** `math.ceil` of an exact quotient. */
  function Ceil(x: real): (n: int)
    ensures x <= n as real < x + 1.0
  {
    -((-x).Floor)
  }

  /**
   * The starting station count: the fewest stations whose combined cycle time covers the
   * total duration (for a positive rate).
   */
  function StartCount(times: seq<real>, outputRate: real): (n: int)
    requires outputRate != 0.0
    ensures var cycle := 60.0 / outputRate;
            outputRate > 0.0 ==> (n as real) * cycle >= Sum(times) && ((n - 1) as real) * cycle < Sum(times)
  {
    var cycle := 60.0 / outputRate;
    var n := Ceil(Sum(times) / cycle);
    if cycle > 0.0 then CeilScaled(Sum(times), cycle); n else n
  }

  /** Scaling back the ceiling of `x / c` by a positive `c` covers `x` by less than `c`. */
  lemma CeilScaled(x: real, c: real)
    requires c > 0.0
    ensures (Ceil(x / c) as real) * c >= x
    ensures ((Ceil(x / c) - 1) as real) * c < x
  {
    var n, q := Ceil(x / c), x / c;
    assert q <= n as real < q + 1.0;
    var m := (n - 1) as real;
    assert m == n as real - 1.0;
    Scale(q, n as real, c);
    Scale(m, q, c);
    assert q * c == x;
    assert m * c < x;
    assert ((n - 1) as real) * c < x;
  }

  /** Multiplying by a positive factor keeps the order of two numbers. */
  lemma Scale(a: real, b: real, c: real)
    requires c > 0.0
    ensures a <= b ==> a * c <= b * c
    ensures a < b ==> a * c < b * c
  {
    PositiveProduct(b - a, c);
    assert (b - a) * c == b * c - a * c;
  }

  lemma PositiveProduct(a: real, b: real)
    requires b > 0.0
    ensures a >= 0.0 ==> a * b >= 0.0
    ensures a > 0.0 ==> a * b > 0.0
  {
  }

  /** How the search loop ends. */
  datatype Run =
    | Balanced(outcome: Outcome, n: int)   // the loop broke after `assign(n)`
    | Raised(failure: Failure)             // an exception left `run_line_balancing`
    | Searching(n: int)                    // still looping, about to call `assign(n)`
    | TooLong(task: Id)                    // the checked search refuses a task longer than the cycle time

  /** What a call `assign(m)` returns or raises, for each station count `m`. */
  type Attempt = int -> Result<Outcome, Failure>

  /** `assign` of one task table and Kahn order, as a function of the station count. */
  function Attempts(tasks: seq<Id>, tp: Preds, order: seq<Id>, taskTime: map<Id, real>, cap: real): Attempt
    requires forall t :: t in order ==> t in taskTime
  {
    m => AssignResult(tasks, tp, order, m, taskTime, cap)
  }

  /**
   * The `while True` loop, run for at most `rounds` calls of `assign`, starting at `n`
   * stations: an exception propagates, a rate of at least `target` stops the loop, and a
   * lower rate retries with one more station.
   */
  function Search(attempt: Attempt, target: real, n: int, rounds: nat): (r: Run)
    ensures r.Balanced? ==> n <= r.n < n + rounds && attempt(r.n) == Ok(r.outcome) && r.outcome.rate >= target
    ensures r.Raised? ==> exists m :: n <= m < n + rounds && attempt(m) == Err(r.failure)
    ensures r.Searching? ==> r.n == n + rounds
    ensures !r.TooLong?
    decreases rounds
  {
    if rounds == 0 then Searching(n)
    else match attempt(n)
      case Err(f) => Raised(f)
      case Ok(o) => if o.rate >= target then Balanced(o, n) else Search(attempt, target, n + 1, rounds - 1)
  }

  /** `assign(m)` succeeded with a rate below `target`, so the loop goes on past `m`. */
  predicate Retried(attempt: Attempt, target: real, m: int) {
    attempt(m).Ok? && attempt(m).value.rate < target
  }

  /**
   * Every station count the loop tried before it stopped (or before the rounds ran out)
   * gave a rate below `target`: a balanced result uses the smallest count from `n` on
   * that reaches the rate.
   */
  lemma {:induction false} SearchFirst(attempt: Attempt, target: real, n: int, rounds: nat)
    requires Search(attempt, target, n, rounds).Balanced? || Search(attempt, target, n, rounds).Searching?
    ensures forall m :: n <= m < Search(attempt, target, n, rounds).n ==> Retried(attempt, target, m)
    decreases rounds
  {
    var r := Search(attempt, target, n, rounds);
    if rounds > 0 && !(r.Balanced? && r.n == n) {
      SearchFirst(attempt, target, n + 1, rounds - 1);
    }
  }

  /**
   * An exception comes from the first count that did not fall short: every count the loop
   * tried before `m` gave a rate below `target`, and `assign(m)` raised.
   */
  lemma {:induction false} SearchRaisedFirst(attempt: Attempt, target: real, n: int, rounds: nat) returns (m: int)
    requires Search(attempt, target, n, rounds).Raised?
    ensures n <= m < n + rounds && attempt(m) == Err(Search(attempt, target, n, rounds).failure)
    ensures forall j :: n <= j < m ==> Retried(attempt, target, j)
    decreases rounds
  {
    if attempt(n).Err? {
      m := n;
    } else {
      m := SearchRaisedFirst(attempt, target, n + 1, rounds - 1);
    }
  }

  /** One more retried count extends a run of retried counts. */
  lemma RetriedUpTo(attempt: Attempt, target: real, n0: int, n: int)
    requires forall m :: n0 <= m < n ==> Retried(attempt, target, m)
    requires Retried(attempt, target, n)
    ensures forall m :: n0 <= m < n + 1 ==> Retried(attempt, target, m)
  {
  }

  /** Counts that are all retried are skipped over, one round each. */
  lemma {:induction false} SearchSkips(attempt: Attempt, target: real, n0: int, rounds: nat, n: int)
    requires n0 <= n <= n0 + rounds
    requires forall m :: n0 <= m < n ==> Retried(attempt, target, m)
    ensures Search(attempt, target, n0, rounds) == Search(attempt, target, n, rounds - (n - n0))
    decreases n - n0
  {
    if n > n0 {
      assert Retried(attempt, target, n0);
      SearchSkips(attempt, target, n0 + 1, rounds - 1, n);
    }
  }

  /** The loop stops at the latest at a count it reaches that is not retried. */
  lemma {:induction false} SearchStopsAt(attempt: Attempt, target: real, n: int, rounds: nat, m: int)
    requires n <= m < n + rounds && !Retried(attempt, target, m)
    ensures !Search(attempt, target, n, rounds).Searching?
    decreases rounds
  {
    if m > n && Retried(attempt, target, n) {
      SearchStopsAt(attempt, target, n + 1, rounds - 1, m);
    }
  }

  /** Once the loop has stopped, allowing it more rounds changes nothing. */
  lemma {:induction false} SearchMoreRounds(attempt: Attempt, target: real, n: int, rounds: nat, more: nat)
    requires rounds <= more
    requires !Search(attempt, target, n, rounds).Searching?
    ensures Search(attempt, target, n, more) == Search(attempt, target, n, rounds)
    decreases rounds
  {
    if Retried(attempt, target, n) {
      SearchMoreRounds(attempt, target, n + 1, rounds - 1, more - 1);
    }
  }

  // ---------------------------------------------------------------------------
  // Rates and cycle times
  // ---------------------------------------------------------------------------

  /** Between positive cycle times, a rate of at least `60 / cap` means a cycle time within `cap`. */
  lemma RateOrder(ct: real, cap: real)
    requires 0.0 < ct && 0.0 < cap
    ensures 60.0 / ct >= 60.0 / cap <==> ct <= cap
  {
    if ct <= cap {
      assert 60.0 / ct - 60.0 / cap == 60.0 * (cap - ct) / (ct * cap);
    } else {
      assert 60.0 / cap - 60.0 / ct == 60.0 * (ct - cap) / (ct * cap);
    }
  }

  lemma CycleRate(target: real)
    requires target != 0.0
    ensures 60.0 / (60.0 / target) == target
    ensures target > 0.0 ==> 60.0 / target > 0.0
  {
  }

  /** A positive rate comes from a positive cycle time. */
  lemma RatePositive(ct: real)
    requires ct != 0.0 && 60.0 / ct > 0.0
    ensures ct > 0.0
  {
    assert (60.0 / ct) * ct == 60.0;
  }

  /**
   * For a positive output rate, a balanced result's cycle time `ct` is positive and within
   * the cycle time `60 / output_rate`, and so is every station's load.
   */
  lemma BalancedWithinCycle(tasks: seq<Id>, tp: Preds, order: seq<Id>, taskTime: map<Id, real>, target: real,
                            n: int, rounds: nat)
    requires forall t :: t in order ==> t in taskTime
    requires target > 0.0
    requires Search(Attempts(tasks, tp, order, taskTime, 60.0 / target), target, n, rounds).Balanced?
    ensures var o := Search(Attempts(tasks, tp, order, taskTime, 60.0 / target), target, n, rounds).outcome;
            0.0 < o.ct <= 60.0 / target
            && forall l :: l in o.stations.loads ==> l <= 60.0 / target
  {
    var cap := 60.0 / target;
    var r := Search(Attempts(tasks, tp, order, taskTime, cap), target, n, rounds);
    var o := r.outcome;
    assert AssignResult(tasks, tp, order, r.n, taskTime, cap) == Ok(o);
    AssignOkIsPacking(tasks, tp, order, r.n, taskTime, cap, o);
    CycleRate(target);
    RatePositive(o.ct);
    RateOrder(o.ct, cap);
  }

  // ---------------------------------------------------------------------------
  // A task longer than the cycle time
  // ---------------------------------------------------------------------------

  /**
   * `assign(m)` for `m >= 1` stations, when no successor escapes `order`, durations are
   * non-negative and some task of `order` takes longer than the cycle time, succeeds with
   * a rate below the output rate: the task's station alone exceeds the cycle time.
   */
  lemma LongTaskRetried(tasks: seq<Id>, tp: Preds, order: seq<Id>, taskTime: map<Id, real>, target: real, m: int, long: Id)
    requires forall t :: t in order ==> t in taskTime && taskTime[t] >= 0.0
    requires target > 0.0 && m >= 1
    requires Escape(tasks, tp, order, 0).None?
    requires long in order && taskTime[long] > 60.0 / target
    ensures Retried(Attempts(tasks, tp, order, taskTime, 60.0 / target), target, m)
  {
    var cap := 60.0 / target;
    CycleRate(target);
    var st := Stations.Pack(order, m, taskTime, cap);
    Stations.CycleTimeCoversTasks(order, m, taskTime, cap, long);
    var ct := Stations.MaxOf(st.loads);
    RateOrder(ct, cap);
    assert AssignResult(tasks, tp, order, m, taskTime, cap) == Ok(Outcome(Labels(m), st, ct, 60.0 / ct));
  }

  /**
   * The loop as written never ends when a task takes longer than the cycle time (and no
   * exception intervenes): every round adds a station and the rate stays too low.
   */
  lemma SearchNeverStops(tasks: seq<Id>, tp: Preds, order: seq<Id>, taskTime: map<Id, real>, target: real,
                         n: int, rounds: nat, long: Id)
    requires forall t :: t in order ==> t in taskTime && taskTime[t] >= 0.0
    requires target > 0.0 && n >= 1
    requires Escape(tasks, tp, order, 0).None?
    requires long in order && taskTime[long] > 60.0 / target
    ensures Search(Attempts(tasks, tp, order, taskTime, 60.0 / target), target, n, rounds) == Searching(n + rounds)
  {
    var attempt := Attempts(tasks, tp, order, taskTime, 60.0 / target);
    forall m | n <= m < n + rounds
      ensures Retried(attempt, target, m)
    {
      LongTaskRetried(tasks, tp, order, taskTime, target, m, long);
    }
    SearchSkips(attempt, target, n, rounds, n + rounds);
  }

  /** The first task of `order` that takes longer than `cap`. */
  function FirstTooLong(order: seq<Id>, taskTime: map<Id, real>, cap: real): (r: Option<Id>)
    requires forall t :: t in order ==> t in taskTime
    ensures r.Some? ==> r.value in order && taskTime[r.value] > cap
    ensures r.None? <==> forall t :: t in order ==> taskTime[t] <= cap
  {
    if order == [] then None
    else if taskTime[order[0]] > cap then Some(order[0])
    else FirstTooLong(order[1..], taskTime, cap)
  }

  /** The search with the infeasible case refused before the loop starts. */
  function CheckedSearch(tasks: seq<Id>, tp: Preds, order: seq<Id>, taskTime: map<Id, real>, cap: real,
                         target: real, n: int, rounds: nat): (r: Run)
    requires forall t :: t in order ==> t in taskTime
    ensures r.TooLong? <==> exists t :: t in order && taskTime[t] > cap
    ensures !r.TooLong? ==> r == Search(Attempts(tasks, tp, order, taskTime, cap), target, n, rounds)
  {
    match FirstTooLong(order, taskTime, cap)
      case Some(t) => TooLong(t)
      case None => Search(Attempts(tasks, tp, order, taskTime, cap), target, n, rounds)
  }

  /**
   * With at least as many stations as tasks and every task within the cycle time, a
   * successful `assign` reaches the output rate (durations non-negative).
   */
  lemma EnoughStations(tasks: seq<Id>, tp: Preds, order: seq<Id>, taskTime: map<Id, real>, target: real, m: int)
    requires target > 0.0
    requires forall t :: t in order ==> t in taskTime && 0.0 <= taskTime[t] <= 60.0 / target
    requires m >= 1 && m >= |order|
    ensures !Retried(Attempts(tasks, tp, order, taskTime, 60.0 / target), target, m)
  {
    var cap := 60.0 / target;
    var a := AssignResult(tasks, tp, order, m, taskTime, cap);
    if a.Ok? {
      var o := a.value;
      AssignOkIsPacking(tasks, tp, order, m, taskTime, cap, o);
      Stations.PackWithinCap(order, m, taskTime, cap);
      var i :| 0 <= i < m && o.stations.loads[i] == o.ct;
      Stations.PackLoads(order, m, taskTime, cap, i);
      Stations.LoadNonNegative(o.stations.lists[i], taskTime);
      CycleRate(target);
      RateOrder(o.ct, cap);
    }
  }

  /**
   * The checked search always ends within one round more than there are tasks: it refuses
   * a task longer than the cycle time, or stops with a result or an exception.
   */
  lemma CheckedSearchStops(tasks: seq<Id>, tp: Preds, order: seq<Id>, taskTime: map<Id, real>, target: real,
                           n: int, rounds: nat)
    requires forall t :: t in order ==> t in taskTime && taskTime[t] >= 0.0
    requires target > 0.0 && rounds > |order|
    ensures !CheckedSearch(tasks, tp, order, taskTime, 60.0 / target, target, n, rounds).Searching?
  {
    var cap := 60.0 / target;
    var attempt := Attempts(tasks, tp, order, taskTime, cap);
    if forall t :: t in order ==> taskTime[t] <= cap {
      if n <= 0 {
        assert AssignResult(tasks, tp, order, n, taskTime, cap) == Err(EmptyStations);
        SearchStopsAt(attempt, target, n, rounds, n);
      } else {
        var m := if n >= |order| then n else |order|;
        EnoughStations(tasks, tp, order, taskTime, target, m);
        SearchStopsAt(attempt, target, n, rounds, m);
      }
    }
  }

  // ---------------------------------------------------------------------------
  // The driver
  // ---------------------------------------------------------------------------

  /** What `assign` needs: unique tasks with durations and predecessor sets, their graph and Kahn's order. */
  ghost predicate Prepared(tasks: seq<Id>, tp: Preds, graph: map<Id, seq<Id>>, order: seq<Id>, taskTime: map<Id, real>) {
    && Distinct(tasks)
    && (forall t :: t in tasks ==> t in tp && t in taskTime)
    && (forall p :: Get(graph, p) == Successors(tasks, tp, p))
    && IsKahnOrder(tasks, tp, order)
  }

  /** One round of the loop: `assign(n)`, and whether the loop stops there. */
  method SearchRound(tasks: seq<Id>, tp: Preds, graph: map<Id, seq<Id>>, order: seq<Id>, taskTime: map<Id, real>,
                     cap: real, target: real, n: int, left: nat, ghost attempt: Attempt)
    returns (r: Run, stop: bool)
    requires Prepared(tasks, tp, graph, order, taskTime)
    requires left > 0 && attempt == Attempts(tasks, tp, order, taskTime, cap)
    ensures stop ==> !Retried(attempt, target, n) && r == Search(attempt, target, n, left)
    ensures !stop ==> Retried(attempt, target, n)
  {
    var res := Assign(tasks, tp, graph, order, n, taskTime, cap);
    assert res == attempt(n);
    if res.Err? {
      r, stop := Raised(res.error), true;
    } else if res.value.rate >= target {
      r, stop := Balanced(res.value, n), true;
    } else {
      r, stop := Searching(n + left), false;
    }
  }

  /** The loop of `run_line_balancing`, allowed at most `rounds` calls of `assign`. */
  method SearchStations(tasks: seq<Id>, tp: Preds, graph: map<Id, seq<Id>>, order: seq<Id>, taskTime: map<Id, real>,
                        cap: real, target: real, n0: int, rounds: nat)
    returns (r: Run)
    requires Prepared(tasks, tp, graph, order, taskTime)
    ensures r == Search(Attempts(tasks, tp, order, taskTime, cap), target, n0, rounds)
  {
    ghost var attempt := Attempts(tasks, tp, order, taskTime, cap);
    var n := n0;
    var left: nat := rounds;
    var found := false;
    r := Searching(n0 + rounds);
    while left > 0 && !found
      invariant n == n0 + (rounds - left)
      invariant forall m :: n0 <= m < n ==> Retried(attempt, target, m)
      invariant found ==> r == Search(attempt, target, n, left)
      invariant !found ==> r == Searching(n0 + rounds)
      decreases left, !found
    {
      var res, stop := SearchRound(tasks, tp, graph, order, taskTime, cap, target, n, left, attempt);
      if stop {
        r, found := res, true;
      } else {
        RetriedUpTo(attempt, target, n0, n);
        n, left := n + 1, left - 1;
      }
    }
    SearchSkips(attempt, target, n0, rounds, n);
  }


  /**
   * `run_line_balancing` on a task table with unique task identifiers, allowed at most
   * `rounds` calls of `assign`; `order` is Kahn's order of the shaped table.
   */
  method RunLineBalancing(rows: seq<Row>, outputRate: real, rounds: nat) returns (r: Run, ghost order: seq<Id>)
    requires Distinct(TaskIds(rows))
    ensures outputRate == 0.0 ==> r == Raised(ZeroDivision)
    ensures outputRate != 0.0 ==>
              var t := Shape(rows);
              IsKahnOrder(t.tasks, t.taskPreds, order)
              && r == Search(Attempts(t.tasks, t.taskPreds, order, t.taskTime, 60.0 / outputRate), outputRate,
                             StartCount(t.times, outputRate), rounds)
  {
    var t := Shape(rows);
    order := [];
    if outputRate == 0.0 {
      r := Raised(ZeroDivision);
    } else {
      var cycleTime := 60.0 / outputRate;
      var n := StartCount(t.times, outputRate);
      var graph, indeg := BuildGraph(t.tasks, t.taskPreds);
      var o := Kahn(t.tasks, t.taskPreds, graph, indeg);
      order := o;
      r := SearchStations(t.tasks, t.taskPreds, graph, o, t.taskTime, cycleTime, outputRate, n, rounds);
    }
  }
}
