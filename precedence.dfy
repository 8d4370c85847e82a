/**
 * The precedence graph of `run_line_balancing` and the processing order Kahn's algorithm
 * draws from it.
 *
 * `graph[p]` lists the tasks that declare `p` as a predecessor, whether or not `p` is a
 * task; `indeg[t]` counts the declared predecessors of `t`. Kahn's FIFO queue starts with the
 * tasks without predecessors, in input order; a task enters it when its last predecessor
 * leaves it. A task on a cycle, or one that depends on an unknown identifier, never does.
 */
module Precedence {
  import opened Seqs

  /** The task -> declared-predecessor-set dictionary (`task_preds`). */
  type Preds = map<Id, set<Id>>

  /** The declared predecessors of `x`; an identifier that is no task has none. */
  function PredsOf(tp: Preds, x: Id): set<Id> {
    if x in tp then tp[x] else {}
  }

  /** The tasks among the first `n` that declare `p` as a predecessor, in task order. */
  function SuccessorsUpTo(tasks: seq<Id>, tp: Preds, n: nat, p: Id): seq<Id>
    requires n <= |tasks|
  {
    if n == 0 then []
    else SuccessorsUpTo(tasks, tp, n - 1, p) + (if p in PredsOf(tp, tasks[n - 1]) then [tasks[n - 1]] else [])
  }

  lemma {:induction false} SuccessorsUpToSpec(tasks: seq<Id>, tp: Preds, n: nat, p: Id)
    requires n <= |tasks|
    ensures forall x :: x in SuccessorsUpTo(tasks, tp, n, p) <==> x in tasks[..n] && p in PredsOf(tp, x)
    ensures Distinct(tasks) ==> Distinct(SuccessorsUpTo(tasks, tp, n, p))
  {
    if n > 0 {
      SuccessorsUpToSpec(tasks, tp, n - 1, p);
      assert tasks[..n] == tasks[..n - 1] + [tasks[n - 1]];
    }
  }

  /** `graph[p]` once built: the tasks that declare `p` as a predecessor, in task order. */
  function Successors(tasks: seq<Id>, tp: Preds, p: Id): (r: seq<Id>)
    ensures forall x :: x in r <==> x in tasks && p in PredsOf(tp, x)
  {
    SuccessorsUpToSpec(tasks, tp, |tasks|, p);
    assert tasks[..|tasks|] == tasks;
    SuccessorsUpTo(tasks, tp, |tasks|, p)
  }

  /** With unique task identifiers, no task is listed twice in `graph[p]`. */
  lemma SuccessorsDistinct(tasks: seq<Id>, tp: Preds, p: Id)
    requires Distinct(tasks)
    ensures Distinct(Successors(tasks, tp, p))
  {
    SuccessorsUpToSpec(tasks, tp, |tasks|, p);
    assert tasks[..|tasks|] == tasks;
  }

  /** `graph[p]` on a `defaultdict(list)`: an absent key reads as the empty list. */
  function Get(graph: map<Id, seq<Id>>, p: Id): seq<Id> {
    if p in graph then graph[p] else []
  }

  /** A task occurs in `graph[p]` exactly once for each `p` it declares as a predecessor, and nowhere else. */
  lemma SuccessorsOnce(tasks: seq<Id>, tp: Preds, p: Id, t: Id)
    requires Distinct(tasks)
    ensures multiset(Successors(tasks, tp, p))[t] == if t in tasks && p in PredsOf(tp, t) then 1 else 0
  {
    SuccessorsDistinct(tasks, tp, p);
    MultisetOfDistinct(Successors(tasks, tp, p), t);
  }

  lemma RemoveOne(s: set<Id>, p: Id)
    requires p in s
    ensures |s - {p}| == |s| - 1
  {
  }

  /**
   * The inner loop of the graph build for one task `t` with declared predecessors `ps`
   * (a set, visited in any order): `t` is appended to `graph[p]` for each `p` in `ps`, and
   * `indeg[t]` is incremented once per predecessor.
   */
  method AddEdges(graph0: map<Id, seq<Id>>, indeg0: map<Id, int>, t: Id, ps: set<Id>)
    returns (graph: map<Id, seq<Id>>, indeg: map<Id, int>)
    requires t in indeg0
    ensures forall p :: Get(graph, p) == Get(graph0, p) + (if p in ps then [t] else [])
    ensures indeg == indeg0[t := indeg0[t] + |ps|]
  {
    graph, indeg := graph0, indeg0;
    var rest := ps;
    while rest != {}
      invariant rest <= ps
      invariant forall p :: Get(graph, p) == Get(graph0, p) + (if p in ps && p !in rest then [t] else [])
      invariant indeg == indeg0[t := indeg0[t] + |ps| - |rest|]
      decreases rest
    {
      var p :| p in rest;
      RemoveOne(rest, p);
      graph := graph[p := Get(graph, p) + [t]];
      indeg := indeg[t := indeg[t] + 1];
      rest := rest - {p};
    }
  }

  /** After the first `n` tasks, `graph[p]` lists the ones among them that declare `p`. */
  ghost predicate GraphUpTo(tasks: seq<Id>, tp: Preds, graph: map<Id, seq<Id>>, n: nat)
    requires n <= |tasks|
  {
    forall p :: Get(graph, p) == SuccessorsUpTo(tasks, tp, n, p)
  }

  lemma GraphStep(tasks: seq<Id>, tp: Preds, graph0: map<Id, seq<Id>>, graph: map<Id, seq<Id>>, i: nat)
    requires i < |tasks| && tasks[i] in tp && GraphUpTo(tasks, tp, graph0, i)
    requires forall p :: Get(graph, p) == Get(graph0, p) + (if p in tp[tasks[i]] then [tasks[i]] else [])
    ensures GraphUpTo(tasks, tp, graph, i + 1)
  {
    assert PredsOf(tp, tasks[i]) == tp[tasks[i]];
  }

  /**
   * The graph-building loop: every task, in task order, is appended to `graph[p]` for each of
   * its declared predecessors `p`, and `indeg[t]` ends up as the number of those predecessors.
   */
  method BuildGraph(tasks: seq<Id>, tp: Preds) returns (graph: map<Id, seq<Id>>, indeg: map<Id, int>)
    requires Distinct(tasks)
    requires forall t :: t in tasks ==> t in tp
    ensures forall p :: Get(graph, p) == Successors(tasks, tp, p)
    ensures forall t :: t in indeg <==> t in tasks
    ensures forall t :: t in tasks ==> indeg[t] == |tp[t]|
  {
    graph := map[];
    indeg := map t | t in tasks :: 0;
    var i := 0;
    while i < |tasks|
      invariant 0 <= i <= |tasks|
      invariant GraphUpTo(tasks, tp, graph, i)
      invariant forall t :: t in indeg <==> t in tasks
      invariant forall k :: 0 <= k < i ==> indeg[tasks[k]] == |tp[tasks[k]]|
      invariant forall k :: i <= k < |tasks| ==> indeg[tasks[k]] == 0
    {
      var t := tasks[i];
      ghost var d0, g0 := indeg, graph;
      graph, indeg := AddEdges(graph, indeg, t, tp[t]);
      forall k | 0 <= k < |tasks| && k != i
        ensures indeg[tasks[k]] == d0[tasks[k]]
      {
        assert tasks[k] != t;
      }
      GraphStep(tasks, tp, g0, graph, i);
      i := i + 1;
    }
    forall t | t in tasks
      ensures indeg[t] == |tp[t]|
    {
      var k :| 0 <= k < |tasks| && tasks[k] == t;
    }
    assert GraphUpTo(tasks, tp, graph, |tasks|);
    forall p
      ensures Get(graph, p) == Successors(tasks, tp, p)
    {
      assert tasks[..|tasks|] == tasks;
    }
  }

  // ---------------------------------------------------------------------------
  // Kahn's algorithm
  // ---------------------------------------------------------------------------

  /** The tasks of `xs` whose declared predecessors all lie in `done`, in the order of `xs`. */
  function Ready(xs: seq<Id>, tp: Preds, done: set<Id>): (r: seq<Id>)
    ensures forall x :: x in r <==> x in xs && PredsOf(tp, x) <= done
    ensures |r| <= |xs|
  {
    if xs == [] then []
    else
      var init, last := xs[..|xs| - 1], xs[|xs| - 1];
      Ready(init, tp, done) + (if PredsOf(tp, last) <= done then [last] else [])
  }

  lemma {:induction false} ReadyDistinct(xs: seq<Id>, tp: Preds, done: set<Id>)
    requires Distinct(xs)
    ensures Distinct(Ready(xs, tp, done))
  {
    if xs != [] {
      var init, last := xs[..|xs| - 1], xs[|xs| - 1];
      assert Distinct(init) && last !in init;
      ReadyDistinct(init, tp, done);
      DistinctConcat(Ready(init, tp, done), if PredsOf(tp, last) <= done then [last] else []);
    }
  }

  /** The tasks the queue starts with: those without declared predecessors, in task order. */
  function Seeds(tasks: seq<Id>, tp: Preds): seq<Id> {
    Ready(tasks, tp, {})
  }

  /**
   * What is appended to the queue while the tasks of `done` are dequeued one after the
   * other: after dequeuing `t`, the successors of `t` whose predecessors have now all been
   * dequeued, in the order of `graph[t]`.
   */
  function Enqueued(tasks: seq<Id>, tp: Preds, done: seq<Id>): seq<Id> {
    if done == [] then []
    else Enqueued(tasks, tp, done[..|done| - 1]) + Ready(Successors(tasks, tp, done[|done| - 1]), tp, Elems(done))
  }

  /**
   * `order` is the sequence a FIFO queue yields: the seeds followed by everything enqueued
   * while `order` itself was dequeued, and the queue never runs dry before `order` ends.
   */
  ghost predicate IsFifoOrder(tasks: seq<Id>, tp: Preds, order: seq<Id>) {
    && order == Seeds(tasks, tp) + Enqueued(tasks, tp, order)
    && Progress(tasks, tp, order)
  }

  /** Before each dequeue the queue is not empty: more has been queued than dequeued. */
  ghost predicate Progress(tasks: seq<Id>, tp: Preds, order: seq<Id>) {
    forall i :: 0 <= i < |order| ==> i < |Seeds(tasks, tp)| + |Enqueued(tasks, tp, order[..i])|
  }

  /** Every task comes after all of its declared predecessors. */
  ghost predicate Topological(tp: Preds, order: seq<Id>) {
    forall i :: 0 <= i < |order| ==> PredsOf(tp, order[i]) <= Elems(order[..i])
  }

  /** A task is in `order` exactly when all its declared predecessors are. */
  ghost predicate Closed(tasks: seq<Id>, tp: Preds, order: seq<Id>) {
    forall t :: t in tasks ==> (t in order <==> PredsOf(tp, t) <= Elems(order))
  }

  /** What Kahn's algorithm produces from `tasks` and `tp`. */
  ghost predicate IsKahnOrder(tasks: seq<Id>, tp: Preds, order: seq<Id>) {
    && Distinct(order)
    && (forall t :: t in order ==> t in tasks)
    && Topological(tp, order)
    && Closed(tasks, tp, order)
    && IsFifoOrder(tasks, tp, order)
  }

  /** `[t for t in ts if indeg[t] == 0]`. */
  function ZeroIndegree(ts: seq<Id>, indeg: map<Id, int>): seq<Id>
    requires forall t :: t in ts ==> t in indeg
  {
    if ts == [] then []
    else
      var init, last := ts[..|ts| - 1], ts[|ts| - 1];
      ZeroIndegree(init, indeg) + (if indeg[last] == 0 then [last] else [])
  }

  lemma {:induction false} ZeroIndegreeSeeds(ts: seq<Id>, tp: Preds, indeg: map<Id, int>)
    requires forall t :: t in ts ==> t in indeg && t in tp && indeg[t] == |tp[t]|
    ensures ZeroIndegree(ts, indeg) == Ready(ts, tp, {})
  {
    if ts != [] {
      var init := ts[..|ts| - 1];
      ZeroIndegreeSeeds(init, tp, indeg);
    }
  }

  lemma RemoveOneMore(p: set<Id>, d: set<Id>, t: Id)
    requires t in p && t !in d
    ensures |p - (d + {t})| == |p - d| - 1
  {
    assert p - d == (p - (d + {t})) + {t};
  }

  /** A task has been queued exactly when all its declared predecessors have been dequeued. */
  ghost predicate Reached(tasks: seq<Id>, tp: Preds, order: seq<Id>, q: seq<Id>) {
    forall x :: x in tasks ==> (x in order + q <==> PredsOf(tp, x) <= Elems(order))
  }

  /** The invariant of the outer loop of Kahn's algorithm, `order` dequeued and `q` queued. */
  ghost predicate KahnState(tasks: seq<Id>, tp: Preds, order: seq<Id>, q: seq<Id>) {
    && Distinct(order + q)
    && (forall x :: x in order + q ==> x in tasks)
    && order + q == Seeds(tasks, tp) + Enqueued(tasks, tp, order)
    && Progress(tasks, tp, order)
    && Topological(tp, order)
    && Reached(tasks, tp, order, q)
  }

  lemma KahnStart(tasks: seq<Id>, tp: Preds)
    requires Distinct(tasks)
    ensures KahnState(tasks, tp, [], Seeds(tasks, tp))
  {
    ReadyDistinct(tasks, tp, {});
    assert [] + Seeds(tasks, tp) == Seeds(tasks, tp);
  }

  /** The task at the head of the queue has not been dequeued before. */
  lemma HeadNotDone(done: seq<Id>, q0: seq<Id>)
    requires Distinct(done + q0) && q0 != []
    ensures q0[0] !in done
  {
    forall k | 0 <= k < |done|
      ensures done[k] != q0[0]
    {
      assert (done + q0)[k] == done[k] && (done + q0)[|done|] == q0[0];
    }
  }

  lemma EnqueuedStep(tasks: seq<Id>, tp: Preds, done: seq<Id>, t: Id)
    ensures Enqueued(tasks, tp, done + [t]) == Enqueued(tasks, tp, done) + Ready(Successors(tasks, tp, t), tp, Elems(done + [t]))
  {
    assert (done + [t])[..|done|] == done;
  }

  /** What dequeuing `t` after `done` appends to the queue. */
  function Released(tasks: seq<Id>, tp: Preds, done: seq<Id>, t: Id): seq<Id> {
    Ready(Successors(tasks, tp, t), tp, Elems(done) + {t})
  }

  lemma StepFifo(tasks: seq<Id>, tp: Preds, done: seq<Id>, q0: seq<Id>)
    requires q0 != []
    requires done + q0 == Seeds(tasks, tp) + Enqueued(tasks, tp, done)
    ensures (done + [q0[0]]) + (q0[1..] + Released(tasks, tp, done, q0[0]))
         == Seeds(tasks, tp) + Enqueued(tasks, tp, done + [q0[0]])
  {
    var t := q0[0];
    EnqueuedStep(tasks, tp, done, t);
    ElemsSnoc(done, t);
    SnocConsSplit(done, q0, Released(tasks, tp, done, t), Seeds(tasks, tp), Enqueued(tasks, tp, done));
  }

  lemma StepProgress(tasks: seq<Id>, tp: Preds, done: seq<Id>, q0: seq<Id>)
    requires q0 != []
    requires done + q0 == Seeds(tasks, tp) + Enqueued(tasks, tp, done)
    requires Progress(tasks, tp, done)
    ensures Progress(tasks, tp, done + [q0[0]])
  {
    var order := done + [q0[0]];
    forall i | 0 <= i < |order|
      ensures i < |Seeds(tasks, tp)| + |Enqueued(tasks, tp, order[..i])|
    {
      if i < |done| {
        assert order[..i] == done[..i];
      } else {
        assert order[..i] == done;
      }
    }
  }

  lemma StepTopological(tp: Preds, done: seq<Id>, t: Id)
    requires Topological(tp, done)
    requires PredsOf(tp, t) <= Elems(done)
    ensures Topological(tp, done + [t])
  {
    var order := done + [t];
    forall i | 0 <= i < |order|
      ensures PredsOf(tp, order[i]) <= Elems(order[..i])
    {
      if i < |done| {
        assert order[..i] == done[..i];
      } else {
        assert order[..i] == done;
      }
    }
  }

  lemma StepDistinct(tasks: seq<Id>, tp: Preds, done: seq<Id>, q0: seq<Id>)
    requires Distinct(tasks)
    requires q0 != [] && q0[0] !in done
    requires Distinct(done + q0)
    requires Reached(tasks, tp, done, q0)
    ensures Distinct((done + q0) + Released(tasks, tp, done, q0[0]))
  {
    var t := q0[0];
    var added := Released(tasks, tp, done, t);
    forall x | x in added
      ensures x !in done + q0
    {
      assert t in PredsOf(tp, x) && t !in Elems(done);
    }
    SuccessorsDistinct(tasks, tp, t);
    ReadyDistinct(Successors(tasks, tp, t), tp, Elems(done) + {t});
    DistinctConcat(done + q0, added);
  }

  lemma StepReached(tasks: seq<Id>, tp: Preds, done: seq<Id>, q0: seq<Id>)
    requires q0 != []
    requires Reached(tasks, tp, done, q0)
    ensures Reached(tasks, tp, done + [q0[0]], q0[1..] + Released(tasks, tp, done, q0[0]))
  {
    var t := q0[0];
    var order := done + [t];
    var q := q0[1..] + Released(tasks, tp, done, t);
    ElemsSnoc(done, t);
    SnocCons(done, q0, Released(tasks, tp, done, t));
    forall x | x in tasks
      ensures x in order + q <==> PredsOf(tp, x) <= Elems(order)
    {
      if PredsOf(tp, x) <= Elems(done) {
        assert x in done + q0;
      }
    }
  }

  /** One round of the outer loop: dequeue `q0[0]`, then append its newly ready successors. */
  lemma KahnStep(tasks: seq<Id>, tp: Preds, done: seq<Id>, q0: seq<Id>)
    requires Distinct(tasks)
    requires KahnState(tasks, tp, done, q0) && q0 != []
    ensures KahnState(tasks, tp, done + [q0[0]], q0[1..] + Released(tasks, tp, done, q0[0]))
  {
    var t := q0[0];
    var order := done + [t];
    var added := Released(tasks, tp, done, t);
    var q := q0[1..] + added;
    HeadNotDone(done, q0);
    SnocCons(done, q0, added);
    StepDistinct(tasks, tp, done, q0);
    StepFifo(tasks, tp, done, q0);
    StepProgress(tasks, tp, done, q0);
    assert t in done + q0;
    StepTopological(tp, done, t);
    StepReached(tasks, tp, done, q0);
  }

  lemma ReadySnoc(xs: seq<Id>, x: Id, tp: Preds, done: set<Id>)
    ensures Ready(xs + [x], tp, done) == Ready(xs, tp, done) + (if PredsOf(tp, x) <= done then [x] else [])
  {
    assert (xs + [x])[..|xs|] == xs;
  }

  /**
   * The indegrees while `graph[t]` is walked: a task already passed (`passed`) has lost `t`
   * as well as the tasks in `done`; the others have lost only the tasks in `done`.
   */
  ghost predicate IndegreesDuring(tasks: seq<Id>, tp: Preds, indeg: map<Id, int>, done: set<Id>, t: Id, passed: seq<Id>) {
    forall y :: y in tasks ==> y in indeg && indeg[y] == |PredsOf(tp, y) - (if y in passed then done + {t} else done)|
  }

  lemma DecrementOne(tasks: seq<Id>, tp: Preds, indeg: map<Id, int>, done: set<Id>, t: Id, passed: seq<Id>, x: Id)
    requires IndegreesDuring(tasks, tp, indeg, done, t, passed)
    requires x in tasks && x !in passed && t in PredsOf(tp, x) && t !in done
    ensures IndegreesDuring(tasks, tp, indeg[x := indeg[x] - 1], done, t, passed + [x])
    ensures indeg[x] - 1 == |PredsOf(tp, x) - (done + {t})|
    ensures indeg[x] - 1 == 0 <==> PredsOf(tp, x) <= done + {t}
  {
    RemoveOneMore(PredsOf(tp, x), done, t);
    if indeg[x] - 1 == 0 {
      assert PredsOf(tp, x) - (done + {t}) == {};
    } else {
      assert PredsOf(tp, x) - (done + {t}) != {};
    }
  }

  /** The loop over `graph[t]` after its first `j` steps. */
  ghost predicate ReleasedSoFar(tasks: seq<Id>, tp: Preds, q0: seq<Id>, q: seq<Id>, indeg: map<Id, int>,
                                succ: seq<Id>, done: set<Id>, t: Id, j: nat) {
    && j <= |succ|
    && q == q0 + Ready(succ[..j], tp, done + {t})
    && IndegreesDuring(tasks, tp, indeg, done, t, succ[..j])
  }

  /** One iteration of the loop over `graph[t]`, at position `j`. */
  lemma ReleaseStep(tasks: seq<Id>, tp: Preds, q0: seq<Id>, q: seq<Id>, indeg: map<Id, int>, succ: seq<Id>, done: set<Id>, t: Id, j: nat)
    requires Distinct(succ)
    requires t !in done
    requires j < |succ| && succ[j] in tasks && t in PredsOf(tp, succ[j])
    requires ReleasedSoFar(tasks, tp, q0, q, indeg, succ, done, t, j)
    ensures succ[j] in indeg
    ensures var x := succ[j];
            var indeg' := indeg[x := indeg[x] - 1];
            ReleasedSoFar(tasks, tp, q0, if indeg'[x] == 0 then q + [x] else q, indeg', succ, done, t, j + 1)
  {
    var x := succ[j];
    TakeSnoc(succ, j);
    ReadySnoc(succ[..j], x, tp, done + {t});
    assert x !in succ[..j] by {
      forall k | 0 <= k < j ensures succ[k] != x { }
    }
    DecrementOne(tasks, tp, indeg, done, t, succ[..j], x);
    AppendAssoc(q0, Ready(succ[..j], tp, done + {t}), [x]);
  }

  /** The body of the loop over `graph[t]`: `graph[t][j]` loses `t` and is queued if it has no predecessor left. */
  method ReleaseOne(tasks: seq<Id>, tp: Preds, q0: seq<Id>, q: seq<Id>, indeg: map<Id, int>, succ: seq<Id>, ghost done: set<Id>, t: Id, j: nat)
    returns (q': seq<Id>, indeg': map<Id, int>)
    requires Distinct(succ)
    requires t !in done
    requires j < |succ| && succ[j] in tasks && t in PredsOf(tp, succ[j])
    requires ReleasedSoFar(tasks, tp, q0, q, indeg, succ, done, t, j)
    ensures succ[j] in indeg && indeg' == indeg[succ[j] := indeg[succ[j]] - 1]
    ensures ReleasedSoFar(tasks, tp, q0, q', indeg', succ, done, t, j + 1)
  {
    ReleaseStep(tasks, tp, q0, q, indeg, succ, done, t, j);
    var x := succ[j];
    indeg' := indeg[x := indeg[x] - 1];
    q' := q;
    if indeg'[x] == 0 {
      q' := q + [x];
    }
  }

  /** Once all of `graph[t]` is passed, every task has lost `t` if it declared it. */
  lemma ReleaseEnd(tasks: seq<Id>, tp: Preds, indeg: map<Id, int>, succ: seq<Id>, done: set<Id>, t: Id)
    requires forall x :: x in succ <==> x in tasks && t in PredsOf(tp, x)
    requires IndegreesDuring(tasks, tp, indeg, done, t, succ)
    ensures forall x :: x in tasks ==> x in indeg && indeg[x] == |PredsOf(tp, x) - (done + {t})|
  {
    forall x | x in tasks && x !in succ
      ensures PredsOf(tp, x) - (done + {t}) == PredsOf(tp, x) - done
    {
    }
  }

  /**
   * The loop over `graph[t]` after `t` is dequeued (`done` holds the tasks dequeued before):
   * each successor's indegree drops by one, and the ones that reach zero join the queue in
   * the order of `graph[t]`.
   */
  method Release(tasks: seq<Id>, tp: Preds, q0: seq<Id>, indeg0: map<Id, int>, succ: seq<Id>, ghost done: set<Id>, t: Id)
    returns (q: seq<Id>, indeg: map<Id, int>)
    requires Distinct(succ)
    requires forall x :: x in succ <==> x in tasks && t in PredsOf(tp, x)
    requires t !in done
    requires forall x :: x in tasks ==> x in indeg0 && indeg0[x] == |PredsOf(tp, x) - done|
    ensures q == q0 + Ready(succ, tp, done + {t})
    ensures forall x :: x in tasks ==> x in indeg && indeg[x] == |PredsOf(tp, x) - (done + {t})|
  {
    q, indeg := q0, indeg0;
    var j := 0;
    while j < |succ|
      invariant ReleasedSoFar(tasks, tp, q0, q, indeg, succ, done, t, j)
    {
      q, indeg := ReleaseOne(tasks, tp, q0, q, indeg, succ, done, t, j);
      j := j + 1;
    }
    assert succ[..j] == succ;
    ReleaseEnd(tasks, tp, indeg, succ, done, t);
  }

  /**
   * Kahn's algorithm as the source runs it: a FIFO queue seeded with the zero-indegree tasks
   * in input order; dequeuing `t` appends it to `order` and decrements the indegree of each
   * task in `graph[t]`, queuing the ones that reach zero.
   */
  method Kahn(tasks: seq<Id>, tp: Preds, graph: map<Id, seq<Id>>, indeg0: map<Id, int>) returns (order: seq<Id>)
    requires Distinct(tasks)
    requires forall t :: t in tasks ==> t in tp
    requires forall p :: Get(graph, p) == Successors(tasks, tp, p)
    requires forall t :: t in indeg0 <==> t in tasks
    requires forall t :: t in tasks ==> indeg0[t] == |tp[t]|
    ensures IsKahnOrder(tasks, tp, order)
  {
    var indeg := indeg0;
    ZeroIndegreeSeeds(tasks, tp, indeg);
    var q := ZeroIndegree(tasks, indeg);
    order := [];
    KahnStart(tasks, tp);
    while q != []
      invariant KahnState(tasks, tp, order, q)
      invariant forall x :: x in tasks ==> x in indeg && indeg[x] == |PredsOf(tp, x) - Elems(order)|
      decreases |tasks| - |order|
    {
      ghost var done := order;
      DistinctNoLonger(order + q, tasks);
      KahnStep(tasks, tp, order, q);
      HeadNotDone(order, q);
      var t := q[0];
      q := q[1..];
      order := order + [t];
      SuccessorsDistinct(tasks, tp, t);
      q, indeg := Release(tasks, tp, q, indeg, Get(graph, t), Elems(done), t);
      ElemsSnoc(done, t);
    }
    assert order + q == order;
  }

  // ---------------------------------------------------------------------------
  // What the order is
  // ---------------------------------------------------------------------------

  /** `x` is a prefix of `y`. */
  predicate IsPrefix(x: seq<Id>, y: seq<Id>) {
    |x| <= |y| && y[..|x|] == x
  }

  /** What is queued while a prefix of `a` is dequeued is a prefix of what is queued for all of `a`. */
  lemma {:induction false} EnqueuedPrefix(tasks: seq<Id>, tp: Preds, a: seq<Id>, i: nat, j: nat)
    requires i <= j <= |a|
    ensures IsPrefix(Enqueued(tasks, tp, a[..i]), Enqueued(tasks, tp, a[..j]))
  {
    if i < j {
      EnqueuedPrefix(tasks, tp, a, i, j - 1);
      assert a[..j][..j - 1] == a[..j - 1];
      var e, e' := Enqueued(tasks, tp, a[..i]), Enqueued(tasks, tp, a[..j - 1]);
      assert Enqueued(tasks, tp, a[..j]) == e' + Ready(Successors(tasks, tp, a[j - 1]), tp, Elems(a[..j]));
      assert Enqueued(tasks, tp, a[..j])[..|e|] == e'[..|e|];
    }
  }

  /**
   * After `i` dequeues from a FIFO order, the seeds and everything queued so far are exactly
   * the first entries of the order.
   */
  lemma FifoPrefix(tasks: seq<Id>, tp: Preds, order: seq<Id>, i: nat)
    requires IsFifoOrder(tasks, tp, order) && i <= |order|
    ensures IsPrefix(Seeds(tasks, tp) + Enqueued(tasks, tp, order[..i]), order)
  {
    EnqueuedPrefix(tasks, tp, order, i, |order|);
    assert order[..|order|] == order;
    var e := Enqueued(tasks, tp, order[..i]);
    var b := |Seeds(tasks, tp)| + |e|;
    assert order[..b] == Seeds(tasks, tp) + e;
  }

  /** Two FIFO orders that agree on their first `i` entries agree on the next one. */
  lemma FifoNext(tasks: seq<Id>, tp: Preds, o1: seq<Id>, o2: seq<Id>, i: nat)
    requires IsFifoOrder(tasks, tp, o1) && IsFifoOrder(tasks, tp, o2)
    requires i < |o1| && i < |o2| && o1[..i] == o2[..i]
    ensures o1[i] == o2[i]
  {
    var x := Seeds(tasks, tp) + Enqueued(tasks, tp, o1[..i]);
    assert i < |x| by {
      assert Progress(tasks, tp, o1);
    }
    FifoPrefix(tasks, tp, o1, i);
    FifoPrefix(tasks, tp, o2, i);
    assert o1[..|x|] == x && o2[..|x|] == x;
    assert o1[i] == x[i];
    assert o2[i] == x[i];
  }

  lemma {:induction false} FifoAgree(tasks: seq<Id>, tp: Preds, o1: seq<Id>, o2: seq<Id>, i: nat)
    requires IsFifoOrder(tasks, tp, o1) && IsFifoOrder(tasks, tp, o2)
    requires i <= |o1| && i <= |o2|
    ensures o1[..i] == o2[..i]
  {
    if i > 0 {
      FifoAgree(tasks, tp, o1, o2, i - 1);
      FifoNext(tasks, tp, o1, o2, i - 1);
      Seqs.TakeSnoc(o1, i - 1);
      Seqs.TakeSnoc(o2, i - 1);
    }
  }

  /** A FIFO order that is a prefix of another is all of it: the queue is empty at its end. */
  lemma FifoNoLonger(tasks: seq<Id>, tp: Preds, o1: seq<Id>, o2: seq<Id>)
    requires IsFifoOrder(tasks, tp, o1) && IsFifoOrder(tasks, tp, o2)
    requires |o1| <= |o2|
    ensures |o1| == |o2|
  {
    FifoAgree(tasks, tp, o1, o2, |o1|);
    assert o1 == o1[..|o1|] == o2[..|o1|];
    assert |o1| == |Seeds(tasks, tp)| + |Enqueued(tasks, tp, o2[..|o1|])|;
    assert Progress(tasks, tp, o2);
  }

  /** The FIFO discipline determines the order completely: there is only one. */
  lemma FifoOrderUnique(tasks: seq<Id>, tp: Preds, o1: seq<Id>, o2: seq<Id>)
    requires IsFifoOrder(tasks, tp, o1) && IsFifoOrder(tasks, tp, o2)
    ensures o1 == o2
  {
    if |o1| <= |o2| {
      FifoNoLonger(tasks, tp, o1, o2);
    } else {
      FifoNoLonger(tasks, tp, o2, o1);
    }
    FifoAgree(tasks, tp, o1, o2, |o1|);
    assert o1 == o1[..|o1|] && o2 == o2[..|o2|];
  }

  /** Everything queued after the seeds has a predecessor that was dequeued before it. */
  lemma {:induction false} EnqueuedHasPredecessor(tasks: seq<Id>, tp: Preds, done: seq<Id>, x: Id)
    requires x in Enqueued(tasks, tp, done)
    ensures exists t :: t in done && t in PredsOf(tp, x)
  {
    var init, last := done[..|done| - 1], done[|done| - 1];
    if x in Enqueued(tasks, tp, init) {
      EnqueuedHasPredecessor(tasks, tp, init, x);
      var t :| t in init && t in PredsOf(tp, x);
      assert t in done;
    } else {
      assert last in done && last in PredsOf(tp, x);
    }
  }

  /** Zero-indegree tasks come first, in input order, and no other task is among them. */
  lemma SeedsFirst(tasks: seq<Id>, tp: Preds, order: seq<Id>, i: nat)
    requires IsFifoOrder(tasks, tp, order) && i < |order|
    ensures PredsOf(tp, order[i]) == {} <==> i < |Seeds(tasks, tp)|
  {
    var seeds, e := Seeds(tasks, tp), Enqueued(tasks, tp, order);
    assert order == seeds + e;
    var x := order[i];
    if i < |seeds| {
      assert x == seeds[i] && x in seeds;
      assert PredsOf(tp, x) <= {};
    } else {
      assert x == e[i - |seeds|] && x in e;
      EnqueuedHasPredecessor(tasks, tp, order, x);
      var t :| t in order && t in PredsOf(tp, x);
    }
  }

  lemma {:induction false} ReadyConcat(xs: seq<Id>, ys: seq<Id>, tp: Preds, done: set<Id>)
    ensures Ready(xs + ys, tp, done) == Ready(xs, tp, done) + Ready(ys, tp, done)
  {
    if ys == [] {
      assert xs + ys == xs;
    } else {
      var init, last := ys[..|ys| - 1], ys[|ys| - 1];
      ReadyConcat(xs, init, tp, done);
      assert (xs + ys)[..|xs + ys| - 1] == xs + init;
      assert (xs + ys)[|xs + ys| - 1] == last;
      var tail := if PredsOf(tp, last) <= done then [last] else [];
      assert Ready(xs + ys, tp, done) == Ready(xs + init, tp, done) + tail;
      assert Ready(ys, tp, done) == Ready(init, tp, done) + tail;
      AppendAssoc(Ready(xs, tp, done), Ready(init, tp, done), tail);
    }
  }

  lemma {:induction false} ReadyAll(xs: seq<Id>, tp: Preds, done: set<Id>)
    requires forall i :: 0 <= i < |xs| ==> PredsOf(tp, xs[i]) <= done
    ensures Ready(xs, tp, done) == xs
  {
    if xs != [] {
      var init, last := xs[..|xs| - 1], xs[|xs| - 1];
      assert forall i :: 0 <= i < |init| ==> init[i] == xs[i];
      ReadyAll(init, tp, done);
      assert PredsOf(tp, last) <= done;
      InitLast(xs);
    }
  }

  lemma {:induction false} ReadyNone(xs: seq<Id>, tp: Preds, done: set<Id>)
    requires forall i :: 0 <= i < |xs| ==> !(PredsOf(tp, xs[i]) <= done)
    ensures Ready(xs, tp, done) == []
  {
    if xs != [] {
      var init := xs[..|xs| - 1];
      assert forall i :: 0 <= i < |init| ==> init[i] == xs[i];
      ReadyNone(init, tp, done);
      assert !(PredsOf(tp, xs[|xs| - 1]) <= done);
    }
  }

  /** Replaying the queue over `order` starts from the same seeds (line 48). */
  lemma ReadyOfOrder(tasks: seq<Id>, tp: Preds, order: seq<Id>)
    requires IsFifoOrder(tasks, tp, order)
    ensures Ready(order, tp, {}) == Seeds(tasks, tp)
  {
    var seeds, e := Seeds(tasks, tp), Enqueued(tasks, tp, order);
    ReadyConcat(seeds, e, tp, {});
    forall i | 0 <= i < |seeds|
      ensures PredsOf(tp, seeds[i]) <= {}
    {
      assert seeds[i] in seeds;
    }
    ReadyAll(seeds, tp, {});
    forall i | 0 <= i < |e|
      ensures !(PredsOf(tp, e[i]) <= {})
    {
      EnqueuedHasPredecessor(tasks, tp, order, e[i]);
    }
    ReadyNone(e, tp, {});
  }

  /** A task in the order has all its declared predecessors before it, so none is unknown. */
  lemma PredecessorsOrdered(tasks: seq<Id>, tp: Preds, order: seq<Id>, x: Id, p: Id)
    requires IsKahnOrder(tasks, tp, order)
    requires x in order && p in PredsOf(tp, x)
    ensures p in order && p in tasks
  {
    var i :| 0 <= i < |order| && order[i] == x;
    assert p in Elems(order[..i]);
  }

  /** A task that depends on an identifier that is no task never enters the order. */
  lemma UnknownPredecessorExcluded(tasks: seq<Id>, tp: Preds, order: seq<Id>, x: Id, p: Id)
    requires IsKahnOrder(tasks, tp, order)
    requires p in PredsOf(tp, x) && p !in tasks
    ensures x !in order
  {
    if x in order {
      PredecessorsOrdered(tasks, tp, order, x, p);
    }
  }

  /**
   * A non-empty set of tasks each of which has a declared predecessor inside the set; the
   * tasks of any dependency cycle form one.
   */
  ghost predicate SelfDependent(tp: Preds, c: set<Id>) {
    && c != {}
    && (forall x {:trigger HasPredecessorIn(tp, c, x)} :: x in c ==> HasPredecessorIn(tp, c, x))
  }

  ghost predicate HasPredecessorIn(tp: Preds, c: set<Id>, x: Id) {
    exists y :: y in c && y in PredsOf(tp, x)
  }

  /** `cyc` is a cycle of declared predecessors: each entry is a predecessor of the next, and the last of the first. */
  ghost predicate IsCycle(tp: Preds, cyc: seq<Id>) {
    && cyc != []
    && (forall i, j :: 0 <= i && j == i + 1 && j < |cyc| ==> cyc[i] in PredsOf(tp, cyc[j]))
    && cyc[|cyc| - 1] in PredsOf(tp, cyc[0])
  }

  lemma CycleSelfDependent(tp: Preds, cyc: seq<Id>)
    requires IsCycle(tp, cyc)
    ensures SelfDependent(tp, Elems(cyc))
  {
    var n := |cyc|;
    assert cyc[0] in Elems(cyc);
    forall x | x in Elems(cyc)
      ensures HasPredecessorIn(tp, Elems(cyc), x)
    {
      var j :| 0 <= j < n && cyc[j] == x;
      var i := if j == 0 then n - 1 else j - 1;
      assert cyc[i] in Elems(cyc) && cyc[i] in PredsOf(tp, cyc[j]);
    }
  }

  lemma {:induction false} SelfDependentBelow(tasks: seq<Id>, tp: Preds, order: seq<Id>, c: set<Id>, p: nat)
    requires Topological(tp, order) && SelfDependent(tp, c)
    ensures forall q :: 0 <= q < |order| && order[q] in c ==> q >= p
  {
    if p > 0 {
      SelfDependentBelow(tasks, tp, order, c, p - 1);
      forall q | 0 <= q < |order| && order[q] in c
        ensures q >= p
      {
        assert HasPredecessorIn(tp, c, order[q]);
        var y :| y in c && y in PredsOf(tp, order[q]);
        assert y in Elems(order[..q]);
        var q' :| 0 <= q' < q && order[..q][q'] == y;
        assert order[q'] == y;
      }
    }
  }

  /** No task of a self-dependent set, and so no task on a cycle, enters the order. */
  lemma SelfDependentExcluded(tasks: seq<Id>, tp: Preds, order: seq<Id>, c: set<Id>, x: Id)
    requires IsKahnOrder(tasks, tp, order) && SelfDependent(tp, c) && x in c
    ensures x !in order
  {
    assert Topological(tp, order);
    SelfDependentBelow(tasks, tp, order, c, |order|);
  }

  lemma CycleExcluded(tasks: seq<Id>, tp: Preds, order: seq<Id>, cyc: seq<Id>, i: nat)
    requires IsKahnOrder(tasks, tp, order) && IsCycle(tp, cyc) && i < |cyc|
    ensures cyc[i] !in order
  {
    CycleSelfDependent(tp, cyc);
    SelfDependentExcluded(tasks, tp, order, Elems(cyc), cyc[i]);
  }
}
