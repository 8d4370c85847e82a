/**
 * The station allocator `assign(k)` nested in `run_line_balancing`: it creates `k` empty
 * stations, replays the readiness queue over the tasks of `order`, places each dequeued
 * task on the greedy station, and reports the largest load as the cycle time `ct` and
 * `60 / ct` as the rate.
 */
module Allocator {
  import opened Wrappers
  import opened Seqs
  import opened Precedence
  import Stations

  /** The exceptions `assign` and the search around it can raise. */
  datatype Failure =
    | EmptyStations   // `min` or `max` over no station (a `ValueError`)
    | KeyError(key: Id)   // `indeg2[x]` for a successor `x` outside `order`
    | ZeroDivision    // `60 / ct` with `ct == 0`, or `60 / output_rate` with a zero rate

  /** What `assign` returns: the labelled stations, the cycle time and the rate. */
  datatype Outcome = Outcome(labels: seq<string>, stations: Stations.Table, ct: real, rate: real)

  /** The keys of `st`, in insertion order. */
  function Labels(k: nat): (names: seq<string>)
    ensures |names| == k
  {
    seq(k, i requires 0 <= i => Stations.Label(i))
  }

  /** The `k` station labels are pairwise different. */
  lemma LabelsDistinct(k: nat)
    ensures Distinct(Labels(k))
  {
    forall i, j | 0 <= i < j < k
      ensures Labels(k)[i] != Labels(k)[j]
    {
      if Stations.Label(i) == Stations.Label(j) {
        Stations.LabelInjective(i, j);
      }
    }
  }

  // ---------------------------------------------------------------------------
  // Where `indeg2[x]` fails
  // ---------------------------------------------------------------------------

  /** The first element of `succ` outside `present`. */
  function FirstMissing(succ: seq<Id>, present: set<Id>): (r: Option<Id>)
    ensures r.Some? ==> r.value in succ && r.value !in present
    ensures r.None? <==> forall x :: x in succ ==> x in present
  {
    if succ == [] then None
    else if succ[0] !in present then Some(succ[0])
    else FirstMissing(succ[1..], present)
  }

  lemma {:induction false} FirstMissingAt(succ: seq<Id>, present: set<Id>, j: nat)
    requires j < |succ| && succ[j] !in present
    requires forall i :: 0 <= i < j ==> succ[i] in present
    ensures FirstMissing(succ, present) == Some(succ[j])
  {
    if j > 0 {
      FirstMissingAt(succ[1..], present, j - 1);
    }
  }

  /**
   * The successor on which the replay from position `i` of `order` stops with a
   * `KeyError`: scanning the dequeued tasks in order and each one's `graph` list in order,
   * the first task that is not in `order`.
   */
  function Escape(tasks: seq<Id>, tp: Preds, order: seq<Id>, i: nat): (r: Option<Id>)
    decreases |order| - i
  {
    if i >= |order| then None
    else match FirstMissing(Successors(tasks, tp, order[i]), Elems(order))
      case Some(x) => Some(x)
      case None => Escape(tasks, tp, order, i + 1)
  }

  /**
   * The replay from position `i` fails exactly when a task from there on has a successor
   * outside `order`; the failing key is such a successor, and is a task.
   */
  lemma {:induction false} EscapeSpec(tasks: seq<Id>, tp: Preds, order: seq<Id>, i: nat)
    ensures Escape(tasks, tp, order, i).None? <==>
            forall j, x :: i <= j < |order| && x in tasks && order[j] in PredsOf(tp, x) ==> x in order
    ensures Escape(tasks, tp, order, i).Some? ==>
            var x := Escape(tasks, tp, order, i).value;
            x in tasks && x !in order && exists j :: i <= j < |order| && order[j] in PredsOf(tp, x)
    decreases |order| - i
  {
    if i < |order| {
      EscapeSpec(tasks, tp, order, i + 1);
      var m := FirstMissing(Successors(tasks, tp, order[i]), Elems(order));
      if m.Some? {
        var x := m.value;
        assert x in tasks && order[i] in PredsOf(tp, x) && x !in order;
      }
    }
  }

  // ---------------------------------------------------------------------------
  // The reference result
  // ---------------------------------------------------------------------------

  /**
   * What `assign(k)` returns or raises, given the Kahn order `order`: no station at all
   * fails in `min` (or in `max` when nothing is dequeued); a successor outside `order`
   * fails in `indeg2`; otherwise the stations are `order` packed greedily, and a zero
   * cycle time fails in `60 / ct`.
   */
  function AssignResult(tasks: seq<Id>, tp: Preds, order: seq<Id>, k: int, taskTime: map<Id, real>, cap: real)
    : (r: Result<Outcome, Failure>)
    requires forall t :: t in order ==> t in taskTime
    ensures k <= 0 <==> r == Err(EmptyStations)
  {
    if k <= 0 then Err(EmptyStations)
    else match Escape(tasks, tp, order, 0)
      case Some(x) => Err(KeyError(x))
      case None =>
        var st := Stations.Pack(order, k, taskTime, cap);
        var ct := Stations.MaxOf(st.loads);
        if ct == 0.0 then Err(ZeroDivision) else Ok(Outcome(Labels(k), st, ct, 60.0 / ct))
  }

  /**
   * With at least one station, `assign` raises `KeyError` exactly when some task outside
   * `order` has a predecessor inside it; a task left out of `order` is dropped silently
   * only when none of its predecessors is in `order`.
   */
  lemma AssignKeyError(tasks: seq<Id>, tp: Preds, order: seq<Id>, k: int, taskTime: map<Id, real>, cap: real)
    requires forall t :: t in order ==> t in taskTime
    requires k >= 1
    ensures var r := AssignResult(tasks, tp, order, k, taskTime, cap);
            (r.Err? && r.error.KeyError?) <==>
            exists t, x :: t in order && x in tasks && t in PredsOf(tp, x) && x !in order
    ensures var r := AssignResult(tasks, tp, order, k, taskTime, cap);
            r.Err? && r.error.KeyError? ==>
            r.error.key in tasks && r.error.key !in order
            && exists t :: t in order && t in PredsOf(tp, r.error.key)
  {
    EscapeSpec(tasks, tp, order, 0);
    if Escape(tasks, tp, order, 0).None? {
      forall t, x | t in order && x in tasks && t in PredsOf(tp, x)
        ensures x in order
      {
        var j :| 0 <= j < |order| && order[j] == t;
      }
    } else {
      var x := Escape(tasks, tp, order, 0).value;
      var j :| 0 <= j < |order| && order[j] in PredsOf(tp, x);
      assert order[j] in order;
    }
  }

  /** A successful `assign(k)` is the greedy packing of `order` onto `k` stations. */
  lemma AssignOkIsPacking(tasks: seq<Id>, tp: Preds, order: seq<Id>, k: int, taskTime: map<Id, real>, cap: real, o: Outcome)
    requires forall u :: u in order ==> u in taskTime
    requires AssignResult(tasks, tp, order, k, taskTime, cap) == Ok(o)
    ensures k >= 1 && Escape(tasks, tp, order, 0).None?
    ensures o.labels == Labels(k) && o.stations == Stations.Pack(order, k, taskTime, cap)
    ensures o.ct == Stations.MaxOf(o.stations.loads) && o.ct != 0.0 && o.rate == 60.0 / o.ct
  {
  }

  /**
   * A successful `assign(k)` returns `k` distinctly labelled stations that together hold
   * every task of `order` exactly once.
   */
  lemma AssignPartition(tasks: seq<Id>, tp: Preds, order: seq<Id>, k: int, taskTime: map<Id, real>, cap: real, o: Outcome, t: Id)
    requires forall u :: u in order ==> u in taskTime
    requires Distinct(order)
    requires AssignResult(tasks, tp, order, k, taskTime, cap) == Ok(o)
    ensures |o.labels| == k && Distinct(o.labels)
    ensures |o.stations.loads| == k && |o.stations.lists| == k
    ensures t in order <==> exists s :: 0 <= s < k && t in o.stations.lists[s]
    ensures forall s, s' :: 0 <= s < s' < k && t in o.stations.lists[s] ==> t !in o.stations.lists[s']
  {
    AssignOkIsPacking(tasks, tp, order, k, taskTime, cap, o);
    LabelsDistinct(k);
    Stations.PackExactlyOnce(order, k, taskTime, cap, t);
  }

  /**
   * In a successful `assign(k)` each station's load is the total duration of its tasks,
   * the loads add up to the total duration of `order`, `ct` is the largest load and the
   * rate is the number of cycles per hour, `60 / ct`.
   */
  lemma AssignLoads(tasks: seq<Id>, tp: Preds, order: seq<Id>, k: int, taskTime: map<Id, real>, cap: real, o: Outcome, i: nat)
    requires forall u :: u in order ==> u in taskTime
    requires AssignResult(tasks, tp, order, k, taskTime, cap) == Ok(o)
    requires i < k
    ensures i < |o.stations.loads| && i < |o.stations.lists|
    ensures forall t :: t in o.stations.lists[i] ==> t in order
    ensures o.stations.loads[i] == Stations.Load(o.stations.lists[i], taskTime)
    ensures Sum(o.stations.loads) == Stations.Load(order, taskTime)
    ensures o.ct in o.stations.loads && forall l :: l in o.stations.loads ==> l <= o.ct
  {
    AssignOkIsPacking(tasks, tp, order, k, taskTime, cap, o);
    Stations.PackLoads(order, k, taskTime, cap, i);
    Stations.PackTotal(order, k, taskTime, cap);
  }

  // ---------------------------------------------------------------------------
  // The replay
  // ---------------------------------------------------------------------------

  /** How far the replayed queue reaches into `order` after `i` dequeues. */
  ghost function QueueEnd(tasks: seq<Id>, tp: Preds, order: seq<Id>, i: nat): nat
    requires i <= |order|
  {
    |Seeds(tasks, tp)| + |Enqueued(tasks, tp, order[..i])|
  }

  /** The replay starts with the queue holding the seeds, which open `order`. */
  lemma ReplayStart(tasks: seq<Id>, tp: Preds, order: seq<Id>, indeg: map<Id, int>)
    requires IsFifoOrder(tasks, tp, order)
    requires indeg.Keys == Elems(order)
    requires forall t :: t in order ==> t in tp && indeg[t] == |tp[t]|
    ensures Replaying(tasks, tp, order, 0, ZeroIndegree(order, indeg), indeg)
  {
    ZeroIndegreeSeeds(order, tp, indeg);
    ReadyOfOrder(tasks, tp, order);
    FifoPrefix(tasks, tp, order, 0);
    assert order[..0] == [];
    assert Seeds(tasks, tp) + [] == Seeds(tasks, tp);
  }

  /**
   * The replay after `i` dequeues: the queue holds the stretch of `order` from `i` to what
   * has been queued so far, and `indeg2` counts, for each task of `order`, its declared
   * predecessors not dequeued yet.
   */
  ghost predicate Replaying(tasks: seq<Id>, tp: Preds, order: seq<Id>, i: nat, q: seq<Id>, indeg2: map<Id, int>) {
    && i <= |order| && i <= QueueEnd(tasks, tp, order, i) <= |order|
    && q == order[i..QueueEnd(tasks, tp, order, i)]
    && indeg2.Keys == Elems(order)
    && forall y :: y in order ==> indeg2[y] == |PredsOf(tp, y) - Elems(order[..i])|
  }

  /** The head of the replayed queue is the next task of `order`. */
  lemma ReplayHead(tasks: seq<Id>, tp: Preds, order: seq<Id>, i: nat, q: seq<Id>, indeg2: map<Id, int>)
    requires Distinct(order)
    requires Replaying(tasks, tp, order, i, q, indeg2) && q != []
    ensures i < |order| && q[0] == order[i] && order[i] !in Elems(order[..i])
  {
    assert q[0] == order[i];
    assert order[i] !in order[..i];
  }

  /**
   * The replayed queue after one more dequeue: its head `order[i]` leaves, and the tasks
   * that `order[i]` made ready join at the end, which is where they stand in `order`.
   */
  lemma QueueAdvance(tasks: seq<Id>, tp: Preds, order: seq<Id>, i: nat)
    requires IsFifoOrder(tasks, tp, order)
    requires i < |order| && i < QueueEnd(tasks, tp, order, i) <= |order|
    ensures var added := Ready(Successors(tasks, tp, order[i]), tp, Elems(order[..i]) + {order[i]});
            && QueueEnd(tasks, tp, order, i + 1) == QueueEnd(tasks, tp, order, i) + |added| <= |order|
            && order[i + 1..QueueEnd(tasks, tp, order, i + 1)] == order[i..QueueEnd(tasks, tp, order, i)][1..] + added
  {
    var e, e' := QueueEnd(tasks, tp, order, i), QueueEnd(tasks, tp, order, i + 1);
    var added := Ready(Successors(tasks, tp, order[i]), tp, Elems(order[..i]) + {order[i]});
    QueueGrows(tasks, tp, order, i);
    DropAppend(order[..e], added, i + 1);
    SliceOfTake(order, i + 1, e);
    SliceOfTake(order, i + 1, e');
    assert order[i..e][1..] == order[i + 1..e];
  }

  /** What has been queued after `i + 1` dequeues is what was queued after `i`, then the tasks `order[i]` made ready. */
  lemma QueueGrows(tasks: seq<Id>, tp: Preds, order: seq<Id>, i: nat)
    requires IsFifoOrder(tasks, tp, order)
    requires i < |order|
    ensures var added := Ready(Successors(tasks, tp, order[i]), tp, Elems(order[..i]) + {order[i]});
            var e, e' := QueueEnd(tasks, tp, order, i), QueueEnd(tasks, tp, order, i + 1);
            && e' == e + |added| <= |order|
            && order[..e'] == order[..e] + added
  {
    var e, e' := QueueEnd(tasks, tp, order, i), QueueEnd(tasks, tp, order, i + 1);
    var added := Ready(Successors(tasks, tp, order[i]), tp, Elems(order[..i]) + {order[i]});
    FifoPrefix(tasks, tp, order, i);
    FifoPrefix(tasks, tp, order, i + 1);
    TakeSnoc(order, i);
    ElemsSnoc(order[..i], order[i]);
    assert order[..i + 1][..i] == order[..i];
    var seeds, enq, enq' := Seeds(tasks, tp), Enqueued(tasks, tp, order[..i]), Enqueued(tasks, tp, order[..i + 1]);
    assert enq' == enq + added;
    assert |seeds + enq| == e && IsPrefix(seeds + enq, order);
    assert order[..e] == seeds + enq;
    AppendAssoc(seeds, enq, added);
    calc {
      order[..e'];
      seeds + enq';
      seeds + (enq + added);
      (seeds + enq) + added;
      order[..e] + added;
    }
  }

  /**
   * One dequeue of the replay: dequeuing `order[i]` and appending its newly ready
   * successors gives the replay after `i + 1` dequeues.
   */
  lemma ReplayStep(tasks: seq<Id>, tp: Preds, order: seq<Id>, i: nat, q: seq<Id>, indeg2: map<Id, int>,
                   q': seq<Id>, indeg2': map<Id, int>)
    requires IsFifoOrder(tasks, tp, order)
    requires Replaying(tasks, tp, order, i, q, indeg2) && q != [] && i < |order|
    requires q' == q[1..] + Ready(Successors(tasks, tp, order[i]), tp, Elems(order[..i]) + {order[i]})
    requires indeg2'.Keys == Elems(order)
    requires forall y :: y in order ==> indeg2'[y] == |PredsOf(tp, y) - (Elems(order[..i]) + {order[i]})|
    ensures Replaying(tasks, tp, order, i + 1, q', indeg2')
  {
    QueueAdvance(tasks, tp, order, i);
    TakeSnoc(order, i);
    ElemsSnoc(order[..i], order[i]);
  }

  /** When the replayed queue runs dry, all of `order` has been dequeued. */
  lemma ReplayEnd(tasks: seq<Id>, tp: Preds, order: seq<Id>, i: nat, indeg2: map<Id, int>)
    requires IsFifoOrder(tasks, tp, order)
    requires Replaying(tasks, tp, order, i, [], indeg2)
    ensures i == |order| && order[..i] == order
  {
    assert Progress(tasks, tp, order);
  }

  /**
   * `assign` after `i` dequeues: the replay state, the stations holding the first `i` tasks
   * of `order` placed greedily (none when `k` is not positive), and no `KeyError` so far.
   */
  ghost predicate Assigning(tasks: seq<Id>, tp: Preds, order: seq<Id>, k: int, taskTime: map<Id, real>, cap: real,
                            i: nat, q: seq<Id>, indeg2: map<Id, int>, st: Stations.Table)
    requires forall t :: t in order ==> t in taskTime
  {
    && Replaying(tasks, tp, order, i, q, indeg2)
    && (k >= 1 ==> st == Stations.Pack(order[..i], k, taskTime, cap))
    && (k <= 0 ==> st == Stations.Empty(0))
    && Escape(tasks, tp, order, 0) == Escape(tasks, tp, order, i)
  }

  /**
   * `assign(k)` as the source runs it: `k` empty stations, `indeg2` counting each ordered
   * task's declared predecessors, a FIFO queue seeded with the ordered tasks that have
   * none, then `Dequeue` until the queue is empty, and the cycle time and rate from the
   * largest load.
   */
  method Assign(tasks: seq<Id>, tp: Preds, graph: map<Id, seq<Id>>, order: seq<Id>, k: int,
                taskTime: map<Id, real>, cap: real)
    returns (r: Result<Outcome, Failure>)
    requires Distinct(tasks)
    requires forall t :: t in tasks ==> t in tp && t in taskTime
    requires forall p :: Get(graph, p) == Successors(tasks, tp, p)
    requires IsKahnOrder(tasks, tp, order)
    ensures r == AssignResult(tasks, tp, order, k, taskTime, cap)
  {
    var st := Stations.Empty(if k > 0 then k else 0);
    var indeg2 := map t | t in order :: |tp[t]|;
    ReplayStart(tasks, tp, order, indeg2);
    var q := ZeroIndegree(order, indeg2);
    ghost var i := 0;
    assert order[..0] == [];
    assert Stations.Pack([], if k > 0 then k else 1, taskTime, cap) == Stations.Empty(if k > 0 then k else 1);
    while q != []
      invariant i <= |order|
      invariant Assigning(tasks, tp, order, k, taskTime, cap, i, q, indeg2, st)
      decreases |order| - i
    {
      var failure;
      q, indeg2, st, failure, i := Dequeue(tasks, tp, graph, order, k, taskTime, cap, i, q, indeg2, st);
      if failure.Some? {
        return Err(failure.value);
      }
    }
    r := Conclude(tasks, tp, order, k, taskTime, cap, i, indeg2, st);
  }

  /**
   * The end of `assign` once the queue is empty: `min` over no station fails, otherwise the
   * cycle time is the largest load and the rate is 60 over it, unless that load is zero.
   */
  method Conclude(tasks: seq<Id>, tp: Preds, order: seq<Id>, k: int, taskTime: map<Id, real>, cap: real,
                  ghost i: nat, indeg2: map<Id, int>, st: Stations.Table)
    returns (r: Result<Outcome, Failure>)
    requires forall t :: t in order ==> t in taskTime
    requires IsFifoOrder(tasks, tp, order)
    requires Assigning(tasks, tp, order, k, taskTime, cap, i, [], indeg2, st)
    ensures r == AssignResult(tasks, tp, order, k, taskTime, cap)
  {
    ReplayEnd(tasks, tp, order, i, indeg2);
    if |st.loads| == 0 {
      return Err(EmptyStations);
    }
    ResultPacked(tasks, tp, order, k, taskTime, cap);
    var ct := Stations.MaxOf(st.loads);
    if ct == 0.0 {
      return Err(ZeroDivision);
    }
    return Ok(Outcome(Labels(k), st, ct, 60.0 / ct));
  }

  /**
   * One round of `while q` in `assign`: dequeue `t`, put it on the greedy station (no
   * station at all fails in `min`), then walk `graph[t]`, failing with a `KeyError` at the
   * first successor outside `order`.
   */
  method Dequeue(tasks: seq<Id>, tp: Preds, graph: map<Id, seq<Id>>, order: seq<Id>, k: int,
                 taskTime: map<Id, real>, cap: real, ghost i: nat, q0: seq<Id>, indeg0: map<Id, int>, st0: Stations.Table)
    returns (q: seq<Id>, indeg2: map<Id, int>, st: Stations.Table, failure: Option<Failure>, ghost i': nat)
    requires Distinct(tasks)
    requires forall t :: t in tasks ==> t in tp && t in taskTime
    requires forall p :: Get(graph, p) == Successors(tasks, tp, p)
    requires Distinct(order) && IsFifoOrder(tasks, tp, order) && forall t :: t in order ==> t in tasks
    requires Assigning(tasks, tp, order, k, taskTime, cap, i, q0, indeg0, st0) && q0 != []
    ensures failure.Some? ==> AssignResult(tasks, tp, order, k, taskTime, cap) == Err(failure.value)
    ensures failure.None? ==> i' == i + 1 <= |order| && Assigning(tasks, tp, order, k, taskTime, cap, i', q, indeg2, st)
  {
    ReplayHead(tasks, tp, order, i, q0, indeg0);
    var t := q0[0];
    if |st0.loads| == 0 {
      ResultEmpty(tasks, tp, order, k, taskTime, cap, i, q0, indeg0, st0);
      q, indeg2, st, failure, i' := q0, indeg0, st0, Some(EmptyStations), i;
    } else {
      st := Stations.Place(st0, t, taskTime[t], cap);
      var succ := Get(graph, t);
      assert t == order[i] && succ == Successors(tasks, tp, order[i]);
      SuccessorsDistinct(tasks, tp, t);
      var missing;
      q, indeg2, missing := ReleaseKnown(order, tp, q0[1..], indeg0, succ, Elems(order[..i]), t);
      if missing.Some? {
        ResultEscaped(tasks, tp, order, k, taskTime, cap, i, q0, indeg0, st0, missing);
        failure, i' := Some(KeyError(missing.value)), i;
      } else {
        AssigningNext(tasks, tp, order, k, taskTime, cap, i, q0, indeg0, st0, q, indeg2, st);
        failure, i' := None, i + 1;
      }
    }
  }

  /** No station at all: `min` over the empty load list fails, which happens exactly when `k` is not positive. */
  lemma ResultEmpty(tasks: seq<Id>, tp: Preds, order: seq<Id>, k: int, taskTime: map<Id, real>, cap: real,
                    i: nat, q: seq<Id>, indeg2: map<Id, int>, st: Stations.Table)
    requires forall t :: t in order ==> t in taskTime
    requires Assigning(tasks, tp, order, k, taskTime, cap, i, q, indeg2, st) && |st.loads| == 0
    ensures AssignResult(tasks, tp, order, k, taskTime, cap) == Err(EmptyStations)
  {
  }

  /** A successor of `order[i]` outside `order` makes `assign` fail with a `KeyError` for it. */
  lemma ResultEscaped(tasks: seq<Id>, tp: Preds, order: seq<Id>, k: int, taskTime: map<Id, real>, cap: real,
                      i: nat, q: seq<Id>, indeg2: map<Id, int>, st: Stations.Table, missing: Option<Id>)
    requires forall t :: t in order ==> t in taskTime
    requires Assigning(tasks, tp, order, k, taskTime, cap, i, q, indeg2, st) && |st.loads| != 0
    requires i < |order| && missing == FirstMissing(Successors(tasks, tp, order[i]), Elems(order)) && missing.Some?
    ensures AssignResult(tasks, tp, order, k, taskTime, cap) == Err(KeyError(missing.value))
  {
    EscapeAt(tasks, tp, order, i);
  }

  /** A dequeue that finds every successor in `order` moves `assign` from `i` to `i + 1` dequeues. */
  lemma AssigningNext(tasks: seq<Id>, tp: Preds, order: seq<Id>, k: int, taskTime: map<Id, real>, cap: real,
                      i: nat, q0: seq<Id>, indeg0: map<Id, int>, st0: Stations.Table,
                      q: seq<Id>, indeg2: map<Id, int>, st: Stations.Table)
    requires forall t :: t in order ==> t in taskTime
    requires IsFifoOrder(tasks, tp, order)
    requires Assigning(tasks, tp, order, k, taskTime, cap, i, q0, indeg0, st0) && q0 != [] && |st0.loads| != 0
    requires i < |order|
    requires FirstMissing(Successors(tasks, tp, order[i]), Elems(order)).None?
    requires q == q0[1..] + Ready(Successors(tasks, tp, order[i]), tp, Elems(order[..i]) + {order[i]})
    requires indeg2.Keys == Elems(order)
    requires forall y :: y in order ==> indeg2[y] == |PredsOf(tp, y) - (Elems(order[..i]) + {order[i]})|
    requires |st0.lists| == |st0.loads| && st == Stations.Place(st0, order[i], taskTime[order[i]], cap)
    ensures Assigning(tasks, tp, order, k, taskTime, cap, i + 1, q, indeg2, st)
  {
    ReplayStep(tasks, tp, order, i, q0, indeg0, q, indeg2);
    EscapeAt(tasks, tp, order, i);
    PlaceNext(order, i, k, taskTime, cap, st0);
  }

  lemma ResultPacked(tasks: seq<Id>, tp: Preds, order: seq<Id>, k: int, taskTime: map<Id, real>, cap: real)
    requires forall t :: t in order ==> t in taskTime
    requires k >= 1 && Escape(tasks, tp, order, 0).None?
    ensures var st := Stations.Pack(order, k, taskTime, cap);
            var ct := Stations.MaxOf(st.loads);
            AssignResult(tasks, tp, order, k, taskTime, cap)
            == if ct == 0.0 then Err(ZeroDivision) else Ok(Outcome(Labels(k), st, ct, 60.0 / ct))
  {
  }

  /** The replay stops at `order[i]` exactly when `order[i]` has a successor outside `order`. */
  lemma EscapeAt(tasks: seq<Id>, tp: Preds, order: seq<Id>, i: nat)
    requires i < |order|
    ensures var m := FirstMissing(Successors(tasks, tp, order[i]), Elems(order));
            Escape(tasks, tp, order, i) == if m.Some? then m else Escape(tasks, tp, order, i + 1)
  {
  }

  /**
   * The loop over `graph[t]` in `assign` after its first `j` steps: every successor passed
   * is in `order`, the ones that became ready are queued, and the indegrees of the passed
   * ones have dropped by one.
   */
  ghost predicate Releasing(order: seq<Id>, tp: Preds, q0: seq<Id>, q: seq<Id>, indeg: map<Id, int>,
                            succ: seq<Id>, done: set<Id>, t: Id, j: nat) {
    && ReleasedSoFar(order, tp, q0, q, indeg, succ, done, t, j)
    && (forall jj :: 0 <= jj < j ==> succ[jj] in indeg)
    && indeg.Keys == Elems(order)
  }

  lemma ReleasingStep(order: seq<Id>, tp: Preds, q0: seq<Id>, q: seq<Id>, indeg: map<Id, int>,
                      succ: seq<Id>, done: set<Id>, t: Id, j: nat, q': seq<Id>, indeg': map<Id, int>)
    requires Releasing(order, tp, q0, q, indeg, succ, done, t, j)
    requires j < |succ| && succ[j] in indeg && indeg' == indeg[succ[j] := indeg[succ[j]] - 1]
    requires ReleasedSoFar(order, tp, q0, q', indeg', succ, done, t, j + 1)
    ensures Releasing(order, tp, q0, q', indeg', succ, done, t, j + 1)
  {
  }

  lemma ReleasingEnd(order: seq<Id>, tp: Preds, q0: seq<Id>, q: seq<Id>, indeg: map<Id, int>,
                     succ: seq<Id>, done: set<Id>, t: Id)
    requires forall x :: x in succ ==> t in PredsOf(tp, x)
    requires forall x :: x in order && t in PredsOf(tp, x) ==> x in succ
    requires Releasing(order, tp, q0, q, indeg, succ, done, t, |succ|)
    ensures FirstMissing(succ, Elems(order)) == None
    ensures q == q0 + Ready(succ, tp, done + {t})
    ensures forall y :: y in order ==> indeg[y] == |PredsOf(tp, y) - (done + {t})|
  {
    assert succ[..|succ|] == succ;
    forall x | x in succ
      ensures x in Elems(order)
    {
      var jj :| 0 <= jj < |succ| && succ[jj] == x;
    }
    ReleaseEnd(order, tp, indeg, succ, done, t);
  }

  /**
   * The loop over `graph[t]` in `assign`: like the one in Kahn's algorithm, except that
   * `indeg2` only has the tasks of `order`, so the first successor outside `order` stops it
   * with a `KeyError` (`missing`).
   */
  method ReleaseKnown(order: seq<Id>, tp: Preds, q0: seq<Id>, indeg0: map<Id, int>, succ: seq<Id>, ghost done: set<Id>, t: Id)
    returns (q: seq<Id>, indeg: map<Id, int>, missing: Option<Id>)
    requires Distinct(succ)
    requires forall x :: x in succ ==> t in PredsOf(tp, x)
    requires forall x :: x in order && t in PredsOf(tp, x) ==> x in succ
    requires t !in done
    requires indeg0.Keys == Elems(order)
    requires forall y :: y in order ==> indeg0[y] == |PredsOf(tp, y) - done|
    ensures missing == FirstMissing(succ, Elems(order))
    ensures missing.None? ==> q == q0 + Ready(succ, tp, done + {t})
    ensures missing.None? ==> indeg.Keys == Elems(order)
    ensures missing.None? ==> forall y :: y in order ==> indeg[y] == |PredsOf(tp, y) - (done + {t})|
  {
    q, indeg := q0, indeg0;
    var j := 0;
    assert succ[..0] == [];
    while j < |succ|
      invariant Releasing(order, tp, q0, q, indeg, succ, done, t, j)
    {
      var x := succ[j];
      if x !in indeg {
        FirstMissingAt(succ, Elems(order), j);
        return q, indeg, Some(x);
      }
      ghost var qj, dj := q, indeg;
      q, indeg := ReleaseOne(order, tp, q0, q, indeg, succ, done, t, j);
      ReleasingStep(order, tp, q0, qj, dj, succ, done, t, j, q, indeg);
      j := j + 1;
    }
    ReleasingEnd(order, tp, q0, q, indeg, succ, done, t);
    missing := None;
  }

  /** Placing `order[i]` on the greedy station extends the packing of `order[..i]` by one. */
  lemma PlaceNext(order: seq<Id>, i: nat, k: int, taskTime: map<Id, real>, cap: real, st: Stations.Table)
    requires i < |order| && k >= 1
    requires forall t :: t in order ==> t in taskTime
    requires st == Stations.Pack(order[..i], k, taskTime, cap)
    ensures Stations.Pack(order[..i + 1], k, taskTime, cap) == Stations.Place(st, order[i], taskTime[order[i]], cap)
  {
    var ts := order[..i + 1];
    assert ts[..|ts| - 1] == order[..i];
    assert ts[|ts| - 1] == order[i];
  }
}
