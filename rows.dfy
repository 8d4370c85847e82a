/**
 * Input shaping of `run_line_balancing`: the task table is filtered, its task cells are
 * normalised, its predecessor cells are split into identifier tokens, and the task ->
 * duration and task -> predecessor-set dictionaries are built with `dict(zip(...))`.
 */
module Rows {
  import opened Wrappers
  import opened Seqs
  import opened Cell

  /** One row of the task table: the task cell, the duration in minutes and the predecessor cell. */
  datatype Row = Row(task: Option<string>, time: real, preds: Option<string>)

  /** The row filter: the task cell is present and not blank. */
  predicate Kept(r: Row) {
    r.task.Some? && Strip(r.task.value) != ""
  }

  /** The rows that survive the filter, in table order. */
  function KeptRows(rows: seq<Row>): (kept: seq<Row>)
    ensures |kept| <= |rows|
    ensures forall x :: x in kept <==> x in rows && Kept(x)
  {
    if rows == [] then []
    else (if Kept(rows[0]) then [rows[0]] else []) + KeptRows(rows[1..])
  }

  // ---------------------------------------------------------------------------
  // Splitting a predecessor cell
  // ---------------------------------------------------------------------------

  /** `s.replace(c, "")`. */
  function RemoveAll(s: string, c: char): (r: string)
    ensures c !in r
    ensures forall x :: x in r <==> x in s && x != c
  {
    if s == [] then []
    else (if s[0] == c then [] else [s[0]]) + RemoveAll(s[1..], c)
  }

  /** `s.split(sep)`: the pieces between the separators, empty pieces included. */
  function Split(s: string, sep: char): (parts: seq<string>)
    ensures |parts| >= 1
    ensures forall i :: 0 <= i < |parts| ==> sep !in parts[i]
  {
    if s == [] then [""]
    else
      var rest := Split(s[1..], sep);
      if s[0] == sep then [""] + rest
      else [[s[0]] + rest[0]] + rest[1..]
  }

  /** `sep.join(parts)`. */
  function Join(parts: seq<string>, sep: char): string {
    if parts == [] then ""
    else if |parts| == 1 then parts[0]
    else parts[0] + [sep] + Join(parts[1..], sep)
  }

  /** `str.split` is undone by `str.join` with the same separator. */
  lemma {:induction false} JoinSplit(s: string, sep: char)
    ensures Join(Split(s, sep), sep) == s
  {
    if s != [] {
      var rest := Split(s[1..], sep);
      JoinSplit(s[1..], sep);
      if s[0] == sep {
        assert Split(s, sep) == [""] + rest;
        assert ([""] + rest)[1..] == rest;
        assert s == [sep] + s[1..];
      } else if |rest| == 1 {
        assert s == [s[0]] + s[1..];
      } else {
        var parts := Split(s, sep);
        assert parts[1..] == rest[1..];
        assert Join(rest, sep) == rest[0] + [sep] + Join(rest[1..], sep);
        assert s == [s[0]] + s[1..];
      }
    }
  }

  /** The non-empty pieces, in order. */
  function NonEmpty(parts: seq<string>): (r: seq<string>)
    ensures forall x :: x in r <==> x in parts && x != ""
  {
    if parts == [] then []
    else (if parts[0] == "" then [] else [parts[0]]) + NonEmpty(parts[1..])
  }

  function Concat(parts: seq<string>): string {
    if parts == [] then "" else parts[0] + Concat(parts[1..])
  }

  lemma {:induction false} ConcatNonEmpty(parts: seq<string>)
    ensures Concat(NonEmpty(parts)) == Concat(parts)
  {
    if parts != [] {
      ConcatNonEmpty(parts[1..]);
      if parts[0] == "" {
        assert NonEmpty(parts) == NonEmpty(parts[1..]);
      } else {
        assert NonEmpty(parts) == [parts[0]] + NonEmpty(parts[1..]);
        assert ([parts[0]] + NonEmpty(parts[1..]))[1..] == NonEmpty(parts[1..]);
      }
    }
  }

  lemma {:induction false} ConcatSplit(s: string, sep: char)
    ensures Concat(Split(s, sep)) == RemoveAll(s, sep)
  {
    if s != [] {
      var rest := Split(s[1..], sep);
      ConcatSplit(s[1..], sep);
      if s[0] == sep {
        assert ([""] + rest)[1..] == rest;
      } else {
        var parts := Split(s, sep);
        assert parts[1..] == rest[1..];
        assert Concat(rest) == rest[0] + Concat(rest[1..]);
      }
    }
  }

  /** The predecessor tokens of one cell (the comprehension building `preds`). */
  function PredTokens(cell: Option<string>): seq<Id> {
    var v := Normalize(cell);
    if v == "" then [] else NonEmpty(Split(RemoveAll(v, ' '), ','))
  }

  /**
   * A blank cell has no tokens; otherwise every token is non-empty and free of commas and
   * spaces, and the tokens spell out the normalised cell with its spaces and commas removed.
   */
  lemma PredTokensSpec(cell: Option<string>)
    ensures Normalize(cell) == "" ==> PredTokens(cell) == []
    ensures forall x :: x in PredTokens(cell) ==> x != "" && ',' !in x && ' ' !in x
    ensures Concat(PredTokens(cell)) == RemoveAll(RemoveAll(Normalize(cell), ' '), ',')
  {
    var v := Normalize(cell);
    var parts := Split(RemoveAll(v, ' '), ',');
    ConcatNonEmpty(parts);
    ConcatSplit(RemoveAll(v, ' '), ',');
    forall x | x in PredTokens(cell)
      ensures ' ' !in x
    {
      var i :| 0 <= i < |parts| && parts[i] == x;
      SplitKeeps(RemoveAll(v, ' '), ',', i, ' ');
    }
  }

  /** A character absent from `s` is absent from every piece of its split. */
  lemma {:induction false} SplitKeeps(s: string, sep: char, i: nat, c: char)
    requires c !in s && i < |Split(s, sep)|
    ensures c !in Split(s, sep)[i]
  {
    if s != [] {
      var rest := Split(s[1..], sep);
      if s[0] == sep {
        if i > 0 { SplitKeeps(s[1..], sep, i - 1, c); }
      } else if i == 0 {
        SplitKeeps(s[1..], sep, 0, c);
      } else {
        SplitKeeps(s[1..], sep, i, c);
      }
    }
  }

  // ---------------------------------------------------------------------------
  // The task table
  // ---------------------------------------------------------------------------

  /** `dict(zip(keys, vals))`: later keys overwrite earlier ones. */
  function ZipMap<V>(keys: seq<Id>, vals: seq<V>): (m: map<Id, V>)
    requires |keys| == |vals|
    ensures m.Keys == Elems(keys)
  {
    if keys == [] then map[]
    else ZipMap(keys[..|keys| - 1], vals[..|vals| - 1])[keys[|keys| - 1] := vals[|vals| - 1]]
  }

  /** A key maps to the value paired with its last occurrence. */
  lemma {:induction false} ZipMapLast<V>(keys: seq<Id>, vals: seq<V>, i: nat)
    requires |keys| == |vals| && i < |keys|
    requires forall j :: i < j < |keys| ==> keys[j] != keys[i]
    ensures ZipMap(keys, vals)[keys[i]] == vals[i]
  {
    var n := |keys| - 1;
    if i < n {
      ZipMapLast(keys[..n], vals[..n], i);
    }
  }

  /** The task identifiers: the normalised task cells of the kept rows. */
  function TaskIds(rows: seq<Row>): (ids: seq<Id>)
    ensures |ids| == |KeptRows(rows)|
  {
    var kept := KeptRows(rows);
    seq(|kept|, i requires 0 <= i < |kept| => Normalize(kept[i].task))
  }

  function Times(rows: seq<Row>): (ts: seq<real>)
    ensures |ts| == |KeptRows(rows)|
  {
    var kept := KeptRows(rows);
    seq(|kept|, i requires 0 <= i < |kept| => kept[i].time)
  }

  function PredSets(rows: seq<Row>): (ps: seq<set<Id>>)
    ensures |ps| == |KeptRows(rows)|
  {
    var kept := KeptRows(rows);
    seq(|kept|, i requires 0 <= i < |kept| => Elems(PredTokens(kept[i].preds)))
  }

  /** The shaped input of the engine. */
  datatype Table = Table(tasks: seq<Id>, times: seq<real>, taskTime: map<Id, real>, taskPreds: map<Id, set<Id>>)

  function Shape(rows: seq<Row>): (t: Table)
    ensures |t.tasks| == |t.times|
    ensures t.taskTime.Keys == Elems(t.tasks) && t.taskPreds.Keys == Elems(t.tasks)
  {
    var tasks := TaskIds(rows);
    Table(tasks, Times(rows), ZipMap(tasks, Times(rows)), ZipMap(tasks, PredSets(rows)))
  }

  /**
   * With unique identifiers, the i-th kept row gives task i its duration and the set of
   * tokens of its predecessor cell.
   */
  lemma ShapeAt(rows: seq<Row>, i: nat)
    requires Distinct(TaskIds(rows)) && i < |KeptRows(rows)|
    ensures var t := Shape(rows);
            t.tasks[i] == Normalize(KeptRows(rows)[i].task)
            && t.taskTime[t.tasks[i]] == KeptRows(rows)[i].time
            && t.taskPreds[t.tasks[i]] == Elems(PredTokens(KeptRows(rows)[i].preds))
  {
    var tasks := TaskIds(rows);
    ZipMapLast(tasks, Times(rows), i);
    ZipMapLast(tasks, PredSets(rows), i);
  }
}
