/**
 * The cell normaliser of the line-balancing engine (`normalize_cell`): a raw task or
 * predecessor cell is trimmed and upper-cased; a bracketed cell that Python's
 * `ast.literal_eval` reads as a non-empty list is replaced by its first element.
 *
 * `ast.literal_eval` is modelled by `ParseList`, a parser for list displays whose items
 * are plain quoted string literals.
 */
module Cell {
  import opened Wrappers

  /** The characters for which Python's `str.isspace()` holds; `str.strip()` removes them. */
  predicate IsSpace(c: char) {
    c == ' ' || ('\t' <= c <= '\r') || ('\U{1c}' <= c <= '\U{1f}') || c == '\U{85}' || c == '\U{a0}'
    || c == '\U{1680}' || ('\U{2000}' <= c <= '\U{200a}') || c == '\U{2028}' || c == '\U{2029}'
    || c == '\U{202f}' || c == '\U{205f}' || c == '\U{3000}'
  }

  predicate IsLower(c: char) { 'a' <= c <= 'z' }

  /** A string with no surrounding whitespace. */
  predicate IsStripped(s: string) {
    s == [] || (!IsSpace(s[0]) && !IsSpace(s[|s| - 1]))
  }

  /** The shape every normalised identifier has: stripped, with no lower-case ASCII letter. */
  predicate IsCanonical(s: string) {
    IsStripped(s) && forall i :: 0 <= i < |s| ==> !IsLower(s[i])
  }

  /** `s.lstrip()`: `s` without its leading whitespace. */
  function StripStart(s: string): (r: string)
    ensures |r| <= |s|
    ensures r == [] || !IsSpace(r[0])
  {
    if s != [] && IsSpace(s[0]) then StripStart(s[1..]) else s
  }

  /** `s.rstrip()`: `s` without its trailing whitespace. */
  function StripEnd(s: string): (r: string)
    ensures |r| <= |s|
    ensures r == [] || !IsSpace(r[|r| - 1])
    ensures r != [] ==> r[0] == s[0]
  {
    if s != [] && IsSpace(s[|s| - 1]) then StripEnd(s[..|s| - 1]) else s
  }

  /** `s.strip()`: `s` without its leading and trailing whitespace. */
  function Strip(s: string): (r: string)
    ensures IsStripped(r) && |r| <= |s|
  {
    StripEnd(StripStart(s))
  }

  lemma {:induction false} StripStartDrops(s: string)
    ensures StripStart(s) == s[|s| - |StripStart(s)|..]
    ensures forall k :: 0 <= k < |s| - |StripStart(s)| ==> IsSpace(s[k])
  {
    if s != [] && IsSpace(s[0]) {
      StripStartDrops(s[1..]);
    }
  }

  lemma {:induction false} StripEndDrops(s: string)
    ensures StripEnd(s) == s[..|StripEnd(s)|]
    ensures forall k :: |StripEnd(s)| <= k < |s| ==> IsSpace(s[k])
  {
    if s != [] && IsSpace(s[|s| - 1]) {
      StripEndDrops(s[..|s| - 1]);
    }
  }

  /** `strip` keeps a contiguous slice of `s` and removes only whitespace around it. */
  lemma StripSlice(s: string)
    ensures var i := |s| - |StripStart(s)|;
            i + |Strip(s)| <= |s| && Strip(s) == s[i..i + |Strip(s)|]
            && (forall k :: 0 <= k < i ==> IsSpace(s[k]))
            && (forall k :: i + |Strip(s)| <= k < |s| ==> IsSpace(s[k]))
  {
    var left := StripStart(s);
    StripStartDrops(s);
    StripEndDrops(left);
    var i := |s| - |left|;
    forall k | i + |Strip(s)| <= k < |s|
      ensures IsSpace(s[k])
    {
      assert s[k] == left[k - i];
    }
  }

  /** Stripping only removes whitespace: a string without surrounding whitespace is kept. */
  lemma StripKeepsStripped(s: string)
    requires IsStripped(s)
    ensures Strip(s) == s
  {
    assert StripStart(s) == s;
  }

  function UpperChar(c: char): (u: char)
    ensures !IsLower(u)
    ensures IsLower(c) || u == c
  {
    if IsLower(c) then (c as int - 'a' as int + 'A' as int) as char else c
  }

  /** `s.upper()` on the ASCII letters. */
  function Upper(s: string): (r: string)
    ensures |r| == |s|
  {
    if s == [] then [] else [UpperChar(s[0])] + Upper(s[1..])
  }

  lemma {:induction false} UpperAt(s: string, i: nat)
    requires i < |s|
    ensures Upper(s)[i] == UpperChar(s[i])
  {
    if i > 0 {
      UpperAt(s[1..], i - 1);
    }
  }

  lemma UpperOfStripped(s: string)
    requires IsStripped(s)
    ensures IsCanonical(Upper(s))
  {
    forall i | 0 <= i < |s|
      ensures Upper(s)[i] == UpperChar(s[i])
    {
      UpperAt(s, i);
    }
  }

  // ---------------------------------------------------------------------------
  // The part of `ast.literal_eval` the normaliser relies on: list displays of
  // quoted string literals, e.g. ['A', "B" ,] .
  // ---------------------------------------------------------------------------

  /** Whitespace the Python tokenizer skips between the items of a bracketed display. */
  predicate IsGap(c: char) {
    c == ' ' || c == '\t' || c == '\n' || c == '\r' || c == '\U{0c}'
  }

  /**
   * A character that may stand for itself inside a one-line string literal; a NUL makes
   * Python refuse to compile the source at all.
   */
  predicate IsPlain(c: char) {
    c != '\\' && c != '\n' && c != '\r' && c != '\0'
  }

  function SkipGaps(s: string): (r: string)
    ensures |r| <= |s|
    ensures r == [] || !IsGap(r[0])
  {
    if s != [] && IsGap(s[0]) then SkipGaps(s[1..]) else s
  }

  /** Reads the body of a string literal up to the closing quote `q`; yields the body and what follows the quote. */
  function ScanBody(s: string, q: char): (r: Option<(string, string)>)
    ensures r.Some? ==> |r.value.1| < |s|
    ensures r.Some? ==> s == r.value.0 + [q] + r.value.1
    ensures r.Some? ==> forall i :: 0 <= i < |r.value.0| ==> r.value.0[i] != q && IsPlain(r.value.0[i])
  {
    if s == [] then None
    else if s[0] == q then Some(("", s[1..]))
    else if !IsPlain(s[0]) then None
    else match ScanBody(s[1..], q)
      case None => None
      case Some((body, rest)) => Some(([s[0]] + body, rest))
  }

  /** Reads one quoted string literal at the start of `s`. */
  function ScanString(s: string): (r: Option<(string, string)>)
    ensures r.Some? ==> |r.value.1| < |s|
  {
    if s != [] && (s[0] == '\'' || s[0] == '"') then ScanBody(s[1..], s[0]) else None
  }

  /** Reads the items of a list display after its `[` (or after a separating comma) up to the final `]`. */
  function ParseItems(s: string): Option<seq<string>>
    decreases |s|, 1
  {
    ParseItemsFrom(SkipGaps(s))
  }

  function ParseItemsFrom(s: string): Option<seq<string>>
    decreases |s|, 0
  {
    if s == "]" then Some([])
    else match ScanString(s)
      case None => None
      case Some((item, rest)) => AfterItem(item, SkipGaps(rest))
  }

  /** What may follow an item: the closing `]`, or a comma and more items. */
  function AfterItem(item: string, rest: string): Option<seq<string>>
    decreases |rest|, 2
  {
    if rest == "]" then Some([item])
    else if rest != [] && rest[0] == ',' then
      match ParseItems(rest[1..])
      case None => None
      case Some(items) => Some([item] + items)
    else None
  }

  /** `ast.literal_eval(v)` for a list of string literals; `None` stands for the exception it raises otherwise. */
  function ParseList(v: string): Option<seq<string>> {
    if v != [] && v[0] == '[' then ParseItems(v[1..]) else None
  }

  /** The strings `ShowList` can write between single quotes as they are, with no escape needed. */
  predicate IsPrintable(s: string) {
    forall i :: 0 <= i < |s| ==> s[i] != '\'' && IsPlain(s[i])
  }

  /** The tail of `repr(items)` after its `[`. */
  function ShowItems(items: seq<string>): string {
    if items == [] then "]"
    else if |items| == 1 then "'" + items[0] + "']"
    else "'" + items[0] + "', " + ShowItems(items[1..])
  }

  /**
   * A list display of strings in single quotes, such as `['A', 'B']`. For items without
   * control or non-printable characters it is Python's `repr` of the list.
   */
  function ShowList(items: seq<string>): string {
    "[" + ShowItems(items)
  }

  lemma {:induction false} ScanBodyOfShown(body: string, rest: string)
    requires IsPrintable(body)
    ensures ScanBody(body + "'" + rest, '\'') == Some((body, rest))
  {
    if body != [] {
      assert (body + "'" + rest)[1..] == body[1..] + "'" + rest;
      ScanBodyOfShown(body[1..], rest);
      assert [body[0]] + body[1..] == body;
    } else {
      assert body + "'" + rest == "'" + rest;
    }
  }

  lemma ScanShown(item: string, rest: string)
    requires IsPrintable(item)
    ensures ScanString("'" + item + "'" + rest) == Some((item, rest))
  {
    var s := "'" + item + "'" + rest;
    assert s[1..] == item + "'" + rest;
    ScanBodyOfShown(item, rest);
  }

  lemma ParseLastShown(item: string)
    requires IsPrintable(item)
    ensures ParseItems("'" + item + "']") == Some([item])
  {
    var s := "'" + item + "']";
    assert |s| >= 3 && s[0] == '\'';
    assert SkipGaps(s) == s;
    assert s != "]";
    assert s == "'" + item + "'" + "]";
    ScanShown(item, "]");
    assert SkipGaps("]") == "]";
    assert ParseItemsFrom(s) == AfterItem(item, "]");
  }

  lemma ParseNextShown(item: string, tail: string)
    requires IsPrintable(item)
    requires tail != [] && !IsGap(tail[0])
    ensures ParseItems("'" + item + "', " + tail) ==
      match ParseItems(tail)
      case None => None
      case Some(items) => Some([item] + items)
  {
    var s := "'" + item + "', " + tail;
    var rest := ", " + tail;
    assert SkipGaps(s) == s;
    assert s == "'" + item + "'" + rest;
    ScanShown(item, rest);
    assert SkipGaps(rest) == rest;
    assert ParseItemsFrom(s) == AfterItem(item, rest);
    assert rest[1..] == " " + tail;
    assert SkipGaps(" " + tail) == SkipGaps(tail);
    assert ParseItems(rest[1..]) == ParseItems(tail);
  }

  lemma {:induction false} ParseItemsOfShown(items: seq<string>)
    requires forall i :: 0 <= i < |items| ==> IsPrintable(items[i])
    ensures ParseItems(ShowItems(items)) == Some(items)
  {
    if items == [] {
      assert SkipGaps("]") == "]";
    } else if |items| == 1 {
      ParseLastShown(items[0]);
      assert [items[0]] == items;
    } else {
      var tail := ShowItems(items[1..]);
      assert tail[0] == '\'' || tail == "]";
      ParseNextShown(items[0], tail);
      ParseItemsOfShown(items[1..]);
      assert [items[0]] + items[1..] == items;
    }
  }

  /** `literal_eval` inverts `repr` on lists of plain strings. */
  lemma ParseShowList(items: seq<string>)
    requires forall i :: 0 <= i < |items| ==> IsPrintable(items[i])
    ensures ParseList(ShowList(items)) == Some(items)
  {
    ParseItemsOfShown(items);
    assert ShowList(items)[1..] == ShowItems(items);
  }

  // ---------------------------------------------------------------------------
  // normalize_cell
  // ---------------------------------------------------------------------------

  /** True when `v` starts with `[` and ends with `]`. */
  predicate LooksLikeList(v: string) {
    |v| >= 2 && v[0] == '[' && v[|v| - 1] == ']'
  }

  /** `normalize_cell`; `None` is a cell holding Python's `None`. */
  function Normalize(cell: Option<string>): (r: string)
    ensures IsCanonical(r)
    ensures cell.None? ==> r == ""
  {
    match cell
    case None => ""
    case Some(raw) =>
      var v := Strip(raw);
      UpperOfStripped(v);
      if LooksLikeList(v) then
        match ParseList(v)
        case Some(items) =>
          if items != [] then UpperOfStripped(Strip(items[0])); Upper(Strip(items[0])) else Upper(v)
        case None => Upper(v)
      else Upper(v)
  }

  /**
   * A cell that is not a non-empty list literal keeps its text apart from case and the
   * whitespace around it: the result is the run of the raw cell that starts at `i`,
   * upper-cased character by character, and only whitespace lies outside that run.
   */
  lemma NormalizeKeeps(s: string) returns (i: nat)
    requires ParseList(Strip(s)).None? || ParseList(Strip(s)) == Some([])
    ensures var r := Normalize(Some(s));
            && i + |r| <= |s|
            && (forall k :: 0 <= k < i ==> IsSpace(s[k]))
            && (forall k :: i + |r| <= k < |s| ==> IsSpace(s[k]))
            && (forall k :: 0 <= k < |r| ==> r[k] == UpperChar(s[i + k]))
  {
    i := |s| - |StripStart(s)|;
    StripSlice(s);
    var v := Strip(s);
    forall k | 0 <= k < |v|
      ensures Upper(v)[k] == UpperChar(s[i + k])
    {
      UpperAt(v, k);
    }
  }

  /**
   * A cell holding a non-empty list literal normalises as Python's display of that list
   * does: only the list it denotes matters, not how it was written.
   */
  lemma NormalizeUnwraps(s: string, items: seq<string>)
    requires LooksLikeList(Strip(s)) && ParseList(Strip(s)) == Some(items) && items != []
    requires forall i :: 0 <= i < |items| ==> IsPrintable(items[i])
    ensures Normalize(Some(s)) == Normalize(Some(ShowList(items)))
  {
    NormalizeShownList(items);
  }

  /**
   * A Python name such as `A` or `task_2`: a letter or `_` followed by letters, digits and
   * `_`, and not one of the constants `True`, `False` and `None`, which `literal_eval` accepts.
   */
  predicate IsBareName(name: string) {
    && name != []
    && ('A' <= name[0] <= 'Z' || 'a' <= name[0] <= 'z' || name[0] == '_')
    && (forall i :: 0 <= i < |name| ==>
          'A' <= name[i] <= 'Z' || 'a' <= name[i] <= 'z' || '0' <= name[i] <= '9' || name[i] == '_')
    && name != "True" && name != "False" && name != "None"
  }

  lemma BareNameFailsToParse(name: string, v: string)
    requires IsBareName(name)
    requires v == "[" + name + "]"
    ensures ParseList(v) == None
  {
    var s := name + "]";
    assert v[1..] == s;
    assert s[0] == name[0] && |s| >= 2;
    assert SkipGaps(s) == s;
    assert s != "]";
    assert ScanString(s) == None;
    assert ParseItemsFrom(s) == None;
    assert ParseItems(s) == None;
  }

  lemma {:induction false} UpperConcat(a: string, b: string)
    ensures Upper(a + b) == Upper(a) + Upper(b)
  {
    if a != [] {
      assert (a + b)[1..] == a[1..] + b;
      UpperConcat(a[1..], b);
    } else {
      assert a + b == b;
    }
  }

  lemma KeptAsWritten(v: string)
    requires IsStripped(v) && (ParseList(v).None? || ParseList(v) == Some([]))
    ensures Normalize(Some(v)) == Upper(v)
  {
    StripKeepsStripped(v);
  }

  /** A bracketed bare name such as `[A]` is not a Python literal, so the brackets stay. */
  lemma BareNameStaysBracketed(name: string, v: string)
    requires IsBareName(name)
    requires v == "[" + name + "]"
    ensures Normalize(Some(v)) == "[" + Upper(name) + "]"
  {
    assert IsStripped(v);
    BareNameFailsToParse(name, v);
    KeptAsWritten(v);
    UpperConcat("[" + name, "]");
    UpperConcat("[", name);
  }

  lemma PairParses(a: string, b: string, v: string)
    requires IsPrintable(a) && IsPrintable(b)
    requires v == "['" + a + "','" + b + "']"
    ensures ParseList(v) == Some([a, b])
  {
    var tail := "'" + b + "']";
    var rest := "," + tail;
    var s := "'" + a + "'" + rest;
    ParseLastShown(b);
    assert v[1..] == s;
    ScanShown(a, rest);
    assert SkipGaps(s) == s;
    assert SkipGaps(rest) == rest;
    assert rest[1..] == tail;
    assert rest != "]" && rest[0] == ',';
    assert ParseItems(rest[1..]) == Some([b]);
    assert [a] + [b] == [a, b];
    assert AfterItem(a, rest) == Some([a, b]);
    assert s != "]";
    assert ParseItemsFrom(s) == AfterItem(a, rest);
    assert ParseItems(s) == Some([a, b]);
  }

  lemma Unwrapped(v: string, items: seq<string>)
    requires IsStripped(v) && LooksLikeList(v) && ParseList(v) == Some(items) && items != []
    ensures Normalize(Some(v)) == Upper(Strip(items[0]))
  {
    StripKeepsStripped(v);
  }

  /** Of a quoted two-item list such as `['a','b']` only the first item survives; the second is dropped. */
  lemma QuotedPairKeepsFirst(a: string, b: string, v: string)
    requires IsPrintable(a) && IsPrintable(b)
    requires v == "['" + a + "','" + b + "']"
    ensures Normalize(Some(v)) == Upper(Strip(a))
  {
    assert IsStripped(v) && LooksLikeList(v);
    PairParses(a, b, v);
    Unwrapped(v, [a, b]);
  }

  lemma EmptyListParses()
    ensures ParseList("[]") == Some([])
  {
    assert "[]"[1..] == "]";
    assert ParseItems("]") == Some([]);
  }

  /** An empty list is kept as written. */
  lemma EmptyListStays()
    ensures Normalize(Some("[]")) == "[]"
  {
    EmptyListParses();
    KeptAsWritten("[]");
    assert Upper("[]") == "[]";
  }

  lemma {:induction false} ShowItemsEnd(items: seq<string>)
    ensures |ShowItems(items)| >= 1 && ShowItems(items)[|ShowItems(items)| - 1] == ']'
  {
    if |items| > 1 {
      ShowItemsEnd(items[1..]);
    }
  }

  /** Normalising the `repr` of a non-empty list of strings gives its first item, trimmed and upper-cased. */
  lemma NormalizeShownList(items: seq<string>)
    requires items != []
    requires forall i :: 0 <= i < |items| ==> IsPrintable(items[i])
    ensures Normalize(Some(ShowList(items))) == Upper(Strip(items[0]))
  {
    var v := ShowList(items);
    ShowItemsEnd(items);
    assert v[|v| - 1] == ShowItems(items)[|ShowItems(items)| - 1];
    StripKeepsStripped(v);
    ParseShowList(items);
  }
}
