/** The task identifier type, and facts about sequences used by several parts of the model. */
module Seqs {

  /** A task identifier: a normalised task or predecessor cell. */
  type Id = string

  /** No element occurs twice. */
  predicate Distinct<T(==)>(s: seq<T>) {
    forall i, j :: 0 <= i < j < |s| ==> s[i] != s[j]
  }

  /** The elements of `s`, as a set (Python's `set(s)`). */
  function Elems<T(==)>(s: seq<T>): set<T> {
    set x | x in s
  }

  lemma ElemsSnoc<T>(s: seq<T>, x: T)
    ensures Elems(s + [x]) == Elems(s) + {x}
  {
  }

  lemma TakeSnoc<T>(s: seq<T>, j: nat)
    requires j < |s|
    ensures s[..j + 1] == s[..j] + [s[j]]
  {
  }

  lemma InitLast<T>(s: seq<T>)
    requires s != []
    ensures s == s[..|s| - 1] + [s[|s| - 1]]
  {
  }

  /** Dropping a prefix shorter than `b` from `b + r`. */
  lemma DropAppend<T>(b: seq<T>, r: seq<T>, n: nat)
    requires n <= |b|
    ensures (b + r)[n..] == b[n..] + r
  {
  }

  lemma SliceOfTake<T>(s: seq<T>, i: nat, j: nat)
    requires i <= j <= |s|
    ensures s[i..j] == s[..j][i..]
  {
  }

  lemma AppendAssoc<T>(a: seq<T>, b: seq<T>, c: seq<T>)
    ensures (a + b) + c == a + (b + c)
  {
  }

  /** Moving the head of `q` to the end of `a` keeps `a + q + b` as it is. */
  lemma SnocCons<T>(a: seq<T>, q: seq<T>, b: seq<T>)
    requires q != []
    ensures (a + [q[0]]) + (q[1..] + b) == (a + q) + b
  {
    assert q == [q[0]] + q[1..];
  }

  lemma SnocConsSplit<T>(a: seq<T>, q: seq<T>, b: seq<T>, c: seq<T>, d: seq<T>)
    requires q != [] && a + q == c + d
    ensures (a + [q[0]]) + (q[1..] + b) == c + (d + b)
  {
    SnocCons(a, q, b);
  }

  lemma {:induction false} ElemsCard<T>(s: seq<T>)
    ensures |Elems(s)| <= |s|
    ensures Distinct(s) ==> |Elems(s)| == |s|
  {
    if s != [] {
      var t := s[1..];
      ElemsCard(t);
      assert Elems(s) == Elems(t) + {s[0]};
      if Distinct(s) {
        assert Distinct(t) by {
          forall i, j | 0 <= i < j < |t| ensures t[i] != t[j] { assert t[i] == s[i + 1] && t[j] == s[j + 1]; }
        }
        assert s[0] !in Elems(t) by {
          forall x | x in t ensures x != s[0] { var k :| 0 <= k < |t| && t[k] == x; assert x == s[k + 1]; }
        }
      }
    }
  }

  /** A duplicate-free sequence drawn from `b` is no longer than `b`. */
  lemma DistinctNoLonger<T>(a: seq<T>, b: seq<T>)
    requires Distinct(a)
    requires forall x :: x in a ==> x in b
    ensures |a| <= |b|
  {
    ElemsCard(a);
    ElemsCard(b);
    assert Elems(a) <= Elems(b);
    SubsetCard(Elems(a), Elems(b));
  }

  lemma SubsetCard<T>(a: set<T>, b: set<T>)
    requires a <= b
    ensures |a| <= |b|
  {
    assert b == a + (b - a);
  }

  lemma DistinctConcat<T>(a: seq<T>, b: seq<T>)
    requires Distinct(a) && Distinct(b)
    requires forall x :: x in a ==> x !in b
    ensures Distinct(a + b)
  {
    forall i, j | 0 <= i < j < |a + b|
      ensures (a + b)[i] != (a + b)[j]
    {
      if j < |a| {
      } else if i >= |a| {
        assert (a + b)[i] == b[i - |a|] && (a + b)[j] == b[j - |a|];
      } else {
        assert (a + b)[i] in a && (a + b)[j] in b;
      }
    }
  }

  /** In a duplicate-free sequence every element occurs once. */
  lemma {:induction false} MultisetOfDistinct<T>(s: seq<T>, x: T)
    requires Distinct(s)
    ensures multiset(s)[x] == if x in s then 1 else 0
  {
    if s != [] {
      var init := s[..|s| - 1];
      assert s == init + [s[|s| - 1]];
      assert Distinct(init);
      MultisetOfDistinct(init, x);
    }
  }

  /** The sum of a sequence of durations (Python's `sum`). */
  function Sum(xs: seq<real>): real {
    if xs == [] then 0.0 else Sum(xs[..|xs| - 1]) + xs[|xs| - 1]
  }
}
