/**
 * The station table of `assign(k)` and the greedy placement rule.
 *
 * Station `i` (0-based) is the dictionary entry labelled `Station i+1`; dictionaries keep
 * insertion order, so iterating over the table visits the stations by increasing index.
 * A task of duration `d` goes to a least-loaded station among those whose load stays within
 * the cycle time, or among all stations when none does; `min` keeps the first minimum, so
 * ties go to the lowest index.
 */
module Stations {
  import opened Seqs

  /** The table `st`: station `i` holds the tasks `lists[i]` and has the load `loads[i]`. */
  datatype Table = Table(loads: seq<real>, lists: seq<seq<Id>>)

  /** `k` stations, each with no task and load 0. */
  function Empty(k: nat): (st: Table)
    ensures |st.loads| == k && |st.lists| == k
    ensures forall i :: 0 <= i < k ==> st.loads[i] == 0.0 && st.lists[i] == []
  {
    Table(seq(k, i => 0.0), seq(k, i => []))
  }

  // ---------------------------------------------------------------------------
  // The greedy choice
  // ---------------------------------------------------------------------------

  /** Station `i` can take the task: its load plus `d` stays within the cycle time `cap`. */
  predicate Fits(loads: seq<real>, d: real, cap: real, i: int) {
    0 <= i < |loads| && loads[i] + d <= cap
  }

  predicate AnyFits(loads: seq<real>, d: real, cap: real) {
    exists i :: 0 <= i < |loads| && Fits(loads, d, cap, i)
  }

  /** The stations `min` chooses among: the fitting ones, or all of them when none fits. */
  predicate Candidate(loads: seq<real>, d: real, cap: real, i: int) {
    0 <= i < |loads| && (AnyFits(loads, d, cap) ==> Fits(loads, d, cap, i))
  }

  /** `s` is a candidate of least load, and no candidate before it has that load. */
  predicate IsGreedyChoice(loads: seq<real>, d: real, cap: real, s: int) {
    && Candidate(loads, d, cap, s)
    && (forall j :: 0 <= j < |loads| && Candidate(loads, d, cap, j) ==> loads[s] <= loads[j])
    && (forall j :: 0 <= j < s && Candidate(loads, d, cap, j) ==> loads[s] < loads[j])
  }

  /** The greedy rule names one station at most. */
  lemma GreedyChoiceUnique(loads: seq<real>, d: real, cap: real, s: int, s': int)
    requires IsGreedyChoice(loads, d, cap, s) && IsGreedyChoice(loads, d, cap, s')
    ensures s == s'
  {
    assert loads[s] <= loads[s'] && loads[s'] <= loads[s];
  }

  /** Strictly increasing station indices below `k`. */
  predicate Indices(cs: seq<int>, k: int) {
    && (forall i :: 0 <= i < |cs| ==> 0 <= cs[i] < k)
    && (forall i, j :: 0 <= i < j < |cs| ==> cs[i] < cs[j])
  }

  /** `[s for s in st if st[s]["time"] + d <= cap]`, as station indices. */
  function Feasible(loads: seq<real>, d: real, cap: real, n: nat): seq<int>
    requires n <= |loads|
  {
    if n == 0 then []
    else Feasible(loads, d, cap, n - 1) + (if Fits(loads, d, cap, n - 1) then [n - 1] else [])
  }

  lemma {:induction false} FeasibleSpec(loads: seq<real>, d: real, cap: real, n: nat)
    requires n <= |loads|
    ensures Indices(Feasible(loads, d, cap, n), n)
    ensures forall i :: i in Feasible(loads, d, cap, n) <==> 0 <= i < n && Fits(loads, d, cap, i)
  {
    if n > 0 {
      FeasibleSpec(loads, d, cap, n - 1);
    }
  }

  /** `st.keys()`, as station indices. */
  function AllStations(n: nat): seq<int> {
    if n == 0 then [] else AllStations(n - 1) + [n - 1]
  }

  lemma {:induction false} AllStationsSpec(n: nat)
    ensures Indices(AllStations(n), n)
    ensures forall i :: i in AllStations(n) <==> 0 <= i < n
  {
    if n > 0 {
      AllStationsSpec(n - 1);
    }
  }

  /** `min(cs, key=lambda s: loads[s])`: Python's `min` replaces its pick only on a strictly smaller key. */
  function FirstMin(loads: seq<real>, cs: seq<int>): (m: int)
    requires cs != []
    requires forall c :: c in cs ==> 0 <= c < |loads|
    ensures m in cs
  {
    if |cs| == 1 then cs[0]
    else
      var init, last := cs[..|cs| - 1], cs[|cs| - 1];
      assert forall c :: c in init ==> c in cs;
      assert last in cs;
      var m := FirstMin(loads, init);
      if loads[last] < loads[m] then last else m
  }

  /** `min` returns an element of least load, and the first one of them in `cs`. */
  lemma {:induction false} FirstMinSpec(loads: seq<real>, cs: seq<int>)
    requires cs != [] && Indices(cs, |loads|)
    ensures FirstMin(loads, cs) in cs
    ensures forall c :: c in cs ==> loads[FirstMin(loads, cs)] <= loads[c]
    ensures forall c :: c in cs && c < FirstMin(loads, cs) ==> loads[FirstMin(loads, cs)] < loads[c]
  {
    if |cs| > 1 {
      var init, last := cs[..|cs| - 1], cs[|cs| - 1];
      assert Indices(init, |loads|);
      FirstMinSpec(loads, init);
      assert forall c :: c in cs ==> c in init || c == last;
      assert forall c :: c in init ==> c < last;
    }
  }

  /** The stations `min` chooses among (line 52): the fitting ones, or all when none fits. */
  function Candidates(loads: seq<real>, d: real, cap: real): seq<int>
    requires loads != []
  {
    var feas := Feasible(loads, d, cap, |loads|);
    if feas != [] then feas else AllStations(|loads|)
  }

  /** `Candidates` lists exactly the candidates of the greedy rule, by increasing index. */
  lemma CandidatesSpec(loads: seq<real>, d: real, cap: real)
    requires loads != []
    ensures Candidates(loads, d, cap) != [] && Indices(Candidates(loads, d, cap), |loads|)
    ensures forall j :: j in Candidates(loads, d, cap) <==> Candidate(loads, d, cap, j)
  {
    var feas := Feasible(loads, d, cap, |loads|);
    FeasibleSpec(loads, d, cap, |loads|);
    AllStationsSpec(|loads|);
    assert 0 in AllStations(|loads|);
    if AnyFits(loads, d, cap) {
      var i :| 0 <= i < |loads| && Fits(loads, d, cap, i);
      assert i in feas;
    }
    if feas != [] {
      assert feas[0] in feas;
    }
  }

  /** The station `assign` gives a task of duration `d` (lines 52-53). */
  function Choose(loads: seq<real>, d: real, cap: real): (s: int)
    requires loads != []
    ensures 0 <= s < |loads|
  {
    CandidatesSpec(loads, d, cap);
    FirstMin(loads, Candidates(loads, d, cap))
  }

  /** The station chosen is the one the greedy rule names. */
  lemma ChooseIsGreedy(loads: seq<real>, d: real, cap: real)
    requires loads != []
    ensures IsGreedyChoice(loads, d, cap, Choose(loads, d, cap))
  {
    CandidatesSpec(loads, d, cap);
    FirstMinSpec(loads, Candidates(loads, d, cap));
  }

  /** When some station fits, the chosen one is still within the cycle time afterwards. */
  lemma ChooseWithinCap(loads: seq<real>, d: real, cap: real)
    requires loads != [] && AnyFits(loads, d, cap)
    ensures loads[Choose(loads, d, cap)] + d <= cap
  {
    ChooseIsGreedy(loads, d, cap);
  }

  // ---------------------------------------------------------------------------
  // Placing the tasks
  // ---------------------------------------------------------------------------

  /** Line 54: the task joins the chosen station's list and its duration is added to that load. */
  function Place(st: Table, t: Id, d: real, cap: real): (st': Table)
    requires |st.loads| == |st.lists| && st.loads != []
  {
    var s := Choose(st.loads, d, cap);
    Table(st.loads[s := st.loads[s] + d], st.lists[s := st.lists[s] + [t]])
  }

  /** The table after placing the tasks `ts` one after the other on `k` stations. */
  function Pack(ts: seq<Id>, k: nat, taskTime: map<Id, real>, cap: real): (st: Table)
    requires k >= 1
    requires forall t :: t in ts ==> t in taskTime
    ensures |st.loads| == k && |st.lists| == k
  {
    if ts == [] then Empty(k)
    else
      var init, last := ts[..|ts| - 1], ts[|ts| - 1];
      Place(Pack(init, k, taskTime, cap), last, taskTime[last], cap)
  }

  /** The total duration of the tasks `ts`. */
  function Load(ts: seq<Id>, taskTime: map<Id, real>): real
    requires forall t :: t in ts ==> t in taskTime
  {
    if ts == [] then 0.0 else Load(ts[..|ts| - 1], taskTime) + taskTime[ts[|ts| - 1]]
  }

  /** All tasks of all stations, with multiplicity. */
  function Gathered(lists: seq<seq<Id>>): multiset<Id> {
    if lists == [] then multiset{} else Gathered(lists[..|lists| - 1]) + multiset(lists[|lists| - 1])
  }

  lemma {:induction false} GatheredUpdate(lists: seq<seq<Id>>, s: nat, t: Id)
    requires s < |lists|
    ensures Gathered(lists[s := lists[s] + [t]]) == Gathered(lists) + multiset{t}
  {
    var n := |lists| - 1;
    var lists' := lists[s := lists[s] + [t]];
    assert Gathered(lists') == Gathered(lists'[..n]) + multiset(lists'[n]);
    assert Gathered(lists) == Gathered(lists[..n]) + multiset(lists[n]);
    if s < n {
      assert lists'[..n] == lists[..n][s := lists[s] + [t]];
      assert lists'[n] == lists[n];
      GatheredUpdate(lists[..n], s, t);
    } else {
      assert lists'[..n] == lists[..n];
      assert multiset(lists'[n]) == multiset(lists[n]) + multiset{t};
    }
  }

  lemma {:induction false} SumUpdate(xs: seq<real>, ys: seq<real>, s: nat, d: real)
    requires s < |xs| && ys == xs[s := xs[s] + d]
    ensures Sum(ys) == Sum(xs) + d
  {
    var n := |xs| - 1;
    assert ys[..n] == if s < n then xs[..n][s := xs[s] + d] else xs[..n];
    if s < n {
      SumUpdate(xs[..n], ys[..n], s, d);
    }
  }

  lemma {:induction false} SumZeros(k: nat)
    ensures Sum(Empty(k).loads) == 0.0
  {
    if k > 0 {
      assert Empty(k).loads[..k - 1] == Empty(k - 1).loads;
      SumZeros(k - 1);
    }
  }

  lemma {:induction false} GatheredEmpty(k: nat)
    ensures Gathered(Empty(k).lists) == multiset{}
  {
    if k > 0 {
      assert Empty(k).lists[..k - 1] == Empty(k - 1).lists;
      GatheredEmpty(k - 1);
    }
  }

  /** Placing `t` adds it once to the tasks on the stations. */
  lemma PlaceGathered(st: Table, t: Id, d: real, cap: real)
    requires |st.loads| == |st.lists| && st.loads != []
    ensures Gathered(Place(st, t, d, cap).lists) == Gathered(st.lists) + multiset{t}
  {
    GatheredUpdate(st.lists, Choose(st.loads, d, cap), t);
  }

  /** Placing a task of duration `d` adds `d` to the total load. */
  lemma PlaceSum(st: Table, t: Id, d: real, cap: real)
    requires |st.loads| == |st.lists| && st.loads != []
    ensures Sum(Place(st, t, d, cap).loads) == Sum(st.loads) + d
  {
    var s := Choose(st.loads, d, cap);
    SumUpdate(st.loads, Place(st, t, d, cap).loads, s, d);
  }

  /** The stations together hold exactly the tasks of `ts`, each as often as in `ts`. */
  lemma {:induction false} PackGathered(ts: seq<Id>, k: nat, taskTime: map<Id, real>, cap: real)
    requires k >= 1
    requires forall t :: t in ts ==> t in taskTime
    ensures Gathered(Pack(ts, k, taskTime, cap).lists) == multiset(ts)
  {
    var st' := Pack(ts, k, taskTime, cap);
    if ts == [] {
      assert st' == Empty(k);
      GatheredEmpty(k);
    } else {
      var init, last := ts[..|ts| - 1], ts[|ts| - 1];
      var st := Pack(init, k, taskTime, cap);
      PackGathered(init, k, taskTime, cap);
      PlaceGathered(st, last, taskTime[last], cap);
      assert st' == Place(st, last, taskTime[last], cap);
      InitLast(ts);
      assert multiset(ts) == multiset(init) + multiset{last};
    }
  }

  /** The loads add up to the total duration of the placed tasks. */
  lemma {:induction false} PackTotal(ts: seq<Id>, k: nat, taskTime: map<Id, real>, cap: real)
    requires k >= 1
    requires forall t :: t in ts ==> t in taskTime
    ensures Sum(Pack(ts, k, taskTime, cap).loads) == Load(ts, taskTime)
  {
    var st' := Pack(ts, k, taskTime, cap);
    if ts == [] {
      assert st' == Empty(k);
      SumZeros(k);
    } else {
      var init, last := ts[..|ts| - 1], ts[|ts| - 1];
      var st := Pack(init, k, taskTime, cap);
      PackTotal(init, k, taskTime, cap);
      PlaceSum(st, last, taskTime[last], cap);
      assert Load(ts, taskTime) == Load(init, taskTime) + taskTime[last];
    }
  }

  /** Each station's load is the total duration of the tasks on its list. */
  lemma {:induction false} PackLoads(ts: seq<Id>, k: nat, taskTime: map<Id, real>, cap: real, i: nat)
    requires k >= 1 && i < k
    requires forall t :: t in ts ==> t in taskTime
    ensures var st := Pack(ts, k, taskTime, cap);
            forall t :: t in st.lists[i] ==> t in ts
    ensures var st := Pack(ts, k, taskTime, cap);
            st.loads[i] == Load(st.lists[i], taskTime)
  {
    if ts != [] {
      var init, last := ts[..|ts| - 1], ts[|ts| - 1];
      var st := Pack(init, k, taskTime, cap);
      PackLoads(init, k, taskTime, cap, i);
      var s := Choose(st.loads, taskTime[last], cap);
      if i == s {
        assert (st.lists[i] + [last])[..|st.lists[i]|] == st.lists[i];
      }
    }
  }

  /** Fewer gathered tasks than stations leaves some station without a task. */
  lemma {:induction false} EmptyStation(lists: seq<seq<Id>>) returns (j: nat)
    requires |Gathered(lists)| < |lists|
    ensures j < |lists| && lists[j] == []
  {
    var n := |lists| - 1;
    if lists[n] == [] {
      j := n;
    } else {
      assert |Gathered(lists)| == |Gathered(lists[..n])| + |lists[n]|;
      j := EmptyStation(lists[..n]);
      assert lists[..n][j] == lists[j];
    }
  }

  /** A placement onto a station the task fits on keeps every load within the cap. */
  lemma PlaceWithinCap(st: Table, t: Id, d: real, cap: real, j: nat)
    requires |st.loads| == |st.lists| && st.loads != []
    requires forall i :: 0 <= i < |st.loads| ==> st.loads[i] <= cap
    requires j < |st.loads| && st.loads[j] + d <= cap
    ensures forall i :: 0 <= i < |st.loads| ==> Place(st, t, d, cap).loads[i] <= cap
  {
    assert Fits(st.loads, d, cap, j);
    ChooseWithinCap(st.loads, d, cap);
  }

  /**
   * With at least as many stations as tasks and no task longer than the cap, the greedy
   * packing keeps every load within the cap: each task finds an empty station at worst.
   */
  lemma {:induction false} PackWithinCap(ts: seq<Id>, k: nat, taskTime: map<Id, real>, cap: real)
    requires k >= 1 && |ts| <= k && cap >= 0.0
    requires forall t :: t in ts ==> t in taskTime && taskTime[t] <= cap
    ensures forall i :: 0 <= i < k ==> Pack(ts, k, taskTime, cap).loads[i] <= cap
  {
    if ts == [] {
      assert Pack(ts, k, taskTime, cap) == Empty(k);
    } else {
      var init, last := ts[..|ts| - 1], ts[|ts| - 1];
      var st := Pack(init, k, taskTime, cap);
      PackWithinCap(init, k, taskTime, cap);
      PackGathered(init, k, taskTime, cap);
      var j := EmptyStation(st.lists);
      PackLoads(init, k, taskTime, cap, j);
      PlaceWithinCap(st, last, taskTime[last], cap, j);
      assert Pack(ts, k, taskTime, cap) == Place(st, last, taskTime[last], cap);
    }
  }

  /** Gathered counts a task once for each station list it is on. */
  lemma {:induction false} GatheredCounts(lists: seq<seq<Id>>, i: nat, j: nat, t: Id)
    requires i < |lists| && j < |lists|
    requires t in lists[i]
    ensures Gathered(lists)[t] >= 1
    ensures i != j && t in lists[j] ==> Gathered(lists)[t] >= 2
  {
    var n := |lists| - 1;
    if i < n {
      if j < n {
        GatheredCounts(lists[..n], i, j, t);
      } else {
        GatheredCounts(lists[..n], i, i, t);
      }
    } else if j < n && t in lists[j] {
      GatheredCounts(lists[..n], j, j, t);
    }
  }

  lemma {:induction false} GatheredSome(lists: seq<seq<Id>>, t: Id)
    requires t in Gathered(lists)
    ensures exists i :: 0 <= i < |lists| && t in lists[i]
  {
    var n := |lists| - 1;
    if t in Gathered(lists[..n]) {
      GatheredSome(lists[..n], t);
      var i :| 0 <= i < n && t in lists[..n][i];
      assert t in lists[i];
    } else {
      assert t in lists[n];
    }
  }

  /** With unique identifiers, every placed task is on exactly one station. */
  lemma PackExactlyOnce(ts: seq<Id>, k: nat, taskTime: map<Id, real>, cap: real, t: Id)
    requires k >= 1 && Distinct(ts)
    requires forall u :: u in ts ==> u in taskTime
    ensures var st := Pack(ts, k, taskTime, cap);
            (t in ts <==> exists i :: 0 <= i < k && t in st.lists[i])
            && forall i, j :: 0 <= i < j < k && t in st.lists[i] ==> t !in st.lists[j]
  {
    var st := Pack(ts, k, taskTime, cap);
    PackGathered(ts, k, taskTime, cap);
    MultisetOfDistinct(ts, t);
    if t in ts {
      GatheredSome(st.lists, t);
    }
    forall i | 0 <= i < k && t in st.lists[i]
      ensures t in ts
    {
      GatheredCounts(st.lists, i, i, t);
    }
    forall i, j | 0 <= i < j < k && t in st.lists[i]
      ensures t !in st.lists[j]
    {
      GatheredCounts(st.lists, i, j, t);
    }
  }

  // ---------------------------------------------------------------------------
  // The cycle time
  // ---------------------------------------------------------------------------

  /** `max(s["time"] for s in st.values())`. */
  function MaxOf(xs: seq<real>): (m: real)
    requires xs != []
    ensures m in xs
    ensures forall x :: x in xs ==> x <= m
  {
    if |xs| == 1 then xs[0]
    else
      var m := MaxOf(xs[1..]);
      assert forall x :: x in xs ==> x == xs[0] || x in xs[1..];
      if xs[0] > m then xs[0] else m
  }

  /** With non-negative durations, a list's total duration is at least each task's duration. */
  lemma {:induction false} LoadCovers(ts: seq<Id>, taskTime: map<Id, real>, t: Id)
    requires forall u :: u in ts ==> u in taskTime && taskTime[u] >= 0.0
    requires t in ts
    ensures taskTime[t] <= Load(ts, taskTime)
  {
    var init := ts[..|ts| - 1];
    assert ts == init + [ts[|ts| - 1]];
    if t in init {
      LoadCovers(init, taskTime, t);
    }
    LoadNonNegative(init, taskTime);
  }

  lemma {:induction false} LoadNonNegative(ts: seq<Id>, taskTime: map<Id, real>)
    requires forall u :: u in ts ==> u in taskTime && taskTime[u] >= 0.0
    ensures Load(ts, taskTime) >= 0.0
  {
    if ts != [] {
      LoadNonNegative(ts[..|ts| - 1], taskTime);
    }
  }

  /** With non-negative durations, the largest load is at least the duration of every placed task. */
  lemma CycleTimeCoversTasks(ts: seq<Id>, k: nat, taskTime: map<Id, real>, cap: real, t: Id)
    requires k >= 1
    requires forall u :: u in ts ==> u in taskTime && taskTime[u] >= 0.0
    requires t in ts
    ensures taskTime[t] <= MaxOf(Pack(ts, k, taskTime, cap).loads)
  {
    var st := Pack(ts, k, taskTime, cap);
    PackGathered(ts, k, taskTime, cap);
    assert t in multiset(ts);
    GatheredSome(st.lists, t);
    var i :| 0 <= i < k && t in st.lists[i];
    PackLoads(ts, k, taskTime, cap, i);
    LoadCovers(st.lists[i], taskTime, t);
    assert st.loads[i] in st.loads;
  }

  // ---------------------------------------------------------------------------
  // Station labels
  // ---------------------------------------------------------------------------

  function DigitChar(d: nat): char
    requires d < 10
  {
    (48 + d) as char
  }

  /** `str(n)` for a natural number: its decimal digits, most significant first. */
  function Decimal(n: nat): (s: string)
    ensures s != []
    ensures forall c :: c in s ==> '0' <= c <= '9'
  {
    if n < 10 then [DigitChar(n)] else Decimal(n / 10) + [DigitChar(n % 10)]
  }

  /** The number a string of decimal digits denotes. */
  function DecimalValue(s: string): nat
    requires forall c :: c in s ==> '0' <= c <= '9'
  {
    if s == [] then 0
    else
      var init, last := s[..|s| - 1], s[|s| - 1];
      assert last in s;
      assert forall c :: c in init ==> c in s;
      10 * DecimalValue(init) + (last as int - 48)
  }

  lemma {:induction false} DecimalRoundTrip(n: nat)
    ensures DecimalValue(Decimal(n)) == n
  {
    if n >= 10 {
      DecimalRoundTrip(n / 10);
      var s := Decimal(n);
      assert s[..|s| - 1] == Decimal(n / 10);
    }
  }

  /** `f"Station {i+1}"`. */
  function Label(i: nat): string {
    "Station " + Decimal(i + 1)
  }

  /** Different stations have different labels, so the table has exactly `k` entries. */
  lemma LabelInjective(i: nat, j: nat)
    requires Label(i) == Label(j)
    ensures i == j
  {
    assert Label(i)[8..] == Decimal(i + 1);
    assert Label(j)[8..] == Decimal(j + 1);
    DecimalRoundTrip(i + 1);
    DecimalRoundTrip(j + 1);
  }
}
