/** The in-memory row sorter: a multi-column comparator and a stable sort
    of a list of rows under it. */
module RowSort {
  import opened Wrappers
  import opened Errors
  import opened Values

  /** One ordering entry: a column, optionally with a reverse flag (a
      one-element entry sorts ascending). */
  datatype OrderEntry = Column(name: string) | ColumnFlag(name: string, reverse: bool)

  predicate Reversed(e: OrderEntry) {
    e.ColumnFlag? && e.reverse
  }

  /** The two rows agree on every ordering column. */
  ghost predicate SameKey(r1: Row, r2: Row, ordering: seq<OrderEntry>) {
    forall k :: 0 <= k < |ordering| ==> Get(r1, ordering[k].name) == Get(r2, ordering[k].name)
  }

  /** `_compare_rows`: the `cmp` of the first column on which the rows
      differ, negated when that entry is reversed, and 0 when they agree on
      every column (an empty ordering included; see `CompareRowsAsWritten`). */
  function CompareRows(r1: Row, r2: Row, ordering: seq<OrderEntry>): (r: int)
    ensures r == -1 || r == 0 || r == 1
    decreases |ordering|
  {
    if ordering == [] then 0
    else
      var e := ordering[0];
      var c := Cmp(Get(r1, e.name), Get(r2, e.name));
      if c != 0 then (if Reversed(e) then -c else c)
      else CompareRows(r1, r2, ordering[1..])
  }

  /** `_compare_rows` returns 0 exactly when the rows agree on every
      ordering column. */
  lemma {:induction false} CompareRowsZero(r1: Row, r2: Row, ordering: seq<OrderEntry>)
    ensures CompareRows(r1, r2, ordering) == 0 <==> SameKey(r1, r2, ordering)
    decreases |ordering|
  {
    if ordering != [] {
      CompareRowsZero(r1, r2, ordering[1..]);
      assert forall k :: 0 < k < |ordering| ==> ordering[k] == ordering[1..][k - 1];
    }
  }

  /** `_compare_rows` as written: `result` is only bound inside the loop, so
      an empty ordering raises `UnboundLocalError`. */
  function CompareRowsAsWritten(r1: Row, r2: Row, ordering: seq<OrderEntry>): (r: Result<int, Error>)
    ensures ordering == [] <==> r == Failure(UnboundLocalError)
    ensures ordering != [] ==> r == Success(CompareRows(r1, r2, ordering))
  {
    if ordering == [] then Failure(UnboundLocalError) else Success(CompareRows(r1, r2, ordering))
  }

  lemma EmptyOrderingRaises(r1: Row, r2: Row)
    ensures CompareRowsAsWritten(r1, r2, []) == Failure(UnboundLocalError)
    ensures CompareRows(r1, r2, []) == 0
  {
  }

  /** The result is decided by the first column on which the rows differ. */
  lemma {:induction false} CompareRowsFirstDifference(r1: Row, r2: Row, ordering: seq<OrderEntry>, k: nat)
    requires k < |ordering|
    requires forall j :: 0 <= j < k ==> Get(r1, ordering[j].name) == Get(r2, ordering[j].name)
    requires Get(r1, ordering[k].name) != Get(r2, ordering[k].name)
    ensures var c := Cmp(Get(r1, ordering[k].name), Get(r2, ordering[k].name));
            CompareRows(r1, r2, ordering) == if Reversed(ordering[k]) then -c else c
    decreases k
  {
    if k > 0 {
      assert Get(r1, ordering[0].name) == Get(r2, ordering[0].name);
      CompareRowsFirstDifference(r1, r2, ordering[1..], k - 1);
    }
  }

  lemma {:induction false} CompareRowsAntisymmetric(r1: Row, r2: Row, ordering: seq<OrderEntry>)
    ensures CompareRows(r1, r2, ordering) == -CompareRows(r2, r1, ordering)
    decreases |ordering|
  {
    if ordering != [] {
      var e := ordering[0];
      CmpAntisymmetric(Get(r1, e.name), Get(r2, e.name));
      CompareRowsAntisymmetric(r1, r2, ordering[1..]);
    }
  }

  /** `CompareRows(a, b) <= 0` is a total preorder. */
  lemma {:induction false} CompareRowsTransitive(a: Row, b: Row, c: Row, ordering: seq<OrderEntry>)
    requires CompareRows(a, b, ordering) <= 0 && CompareRows(b, c, ordering) <= 0
    ensures CompareRows(a, c, ordering) <= 0
    decreases |ordering|
  {
    if ordering != [] {
      var e := ordering[0];
      var x, y, z := Get(a, e.name), Get(b, e.name), Get(c, e.name);
      CmpAntisymmetric(x, y);
      CmpAntisymmetric(y, z);
      CmpAntisymmetric(x, z);
      if Cmp(x, y) != 0 && Cmp(y, z) != 0 {
        if Reversed(e) {
          CmpTransitive(z, y, x);
        } else {
          CmpTransitive(x, y, z);
        }
      } else if Cmp(x, y) == 0 && Cmp(y, z) == 0 {
        CompareRowsTransitive(a, b, c, ordering[1..]);
      }
    }
  }

  lemma {:induction false} CompareRowsReflexive(a: Row, ordering: seq<OrderEntry>)
    ensures CompareRows(a, a, ordering) == 0
    decreases |ordering|
  {
    if ordering != [] {
      CompareRowsReflexive(a, ordering[1..]);
    }
  }

  /** Rows with the same key compare the same way against every row. */
  lemma {:induction false} CompareRowsSameKey(a: Row, k: Row, c: Row, ordering: seq<OrderEntry>)
    requires CompareRows(a, k, ordering) == 0
    ensures CompareRows(a, c, ordering) == CompareRows(k, c, ordering)
    decreases |ordering|
  {
    if ordering != [] {
      assert Get(a, ordering[0].name) == Get(k, ordering[0].name);
      CompareRowsSameKey(a, k, c, ordering[1..]);
    }
  }

  // ---------------------------------------------------------------------------
  // Stable sorting

  ghost predicate Sorted(s: seq<Row>, ordering: seq<OrderEntry>) {
    forall i, j :: 0 <= i < j < |s| ==> CompareRows(s[i], s[j], ordering) <= 0
  }

  /** Inserts `x` after every element that does not compare above it. */
  function InsertSorted(t: seq<Row>, x: Row, ordering: seq<OrderEntry>): (r: seq<Row>)
    ensures |r| == |t| + 1
    ensures multiset(r) == multiset(t) + multiset{x}
    decreases |t|
  {
    if t == [] then [x]
    else if CompareRows(t[|t| - 1], x, ordering) <= 0 then t + [x]
    else
      var r := InsertSorted(t[..|t| - 1], x, ordering) + [t[|t| - 1]];
      assert t == t[..|t| - 1] + [t[|t| - 1]];
      r
  }

  /** The stable sort `list.sort` performs with the `_compare_rows` key:
      insertion of each row, left to right. */
  function StableSort(s: seq<Row>, ordering: seq<OrderEntry>): (r: seq<Row>)
    ensures multiset(r) == multiset(s)
    ensures |r| == |s|
    decreases |s|
  {
    if s == [] then []
    else
      assert s == s[..|s| - 1] + [s[|s| - 1]];
      InsertSorted(StableSort(s[..|s| - 1], ordering), s[|s| - 1], ordering)
  }

  lemma SortedAppend(u: seq<Row>, l: Row, ordering: seq<OrderEntry>)
    requires Sorted(u, ordering)
    requires forall i :: 0 <= i < |u| ==> CompareRows(u[i], l, ordering) <= 0
    ensures Sorted(u + [l], ordering)
  {
    var v := u + [l];
    forall i, j | 0 <= i < j < |v|
      ensures CompareRows(v[i], v[j], ordering) <= 0
    {
      assert v[i] == u[i];
      if j < |u| {
        assert v[j] == u[j];
      } else {
        assert v[j] == l;
      }
    }
  }

  lemma {:induction false} InsertSortedMember(t: seq<Row>, x: Row, ordering: seq<OrderEntry>, i: nat)
    requires i < |InsertSorted(t, x, ordering)|
    ensures InsertSorted(t, x, ordering)[i] == x || InsertSorted(t, x, ordering)[i] in t
    decreases |t|
  {
    if t != [] && CompareRows(t[|t| - 1], x, ordering) > 0 {
      var d := t[..|t| - 1];
      var u := InsertSorted(d, x, ordering);
      assert InsertSorted(t, x, ordering) == u + [t[|t| - 1]];
      if i < |u| {
        InsertSortedMember(d, x, ordering, i);
        assert forall y :: y in d ==> y in t;
      }
    }
  }

  lemma {:induction false} InsertSortedSorted(t: seq<Row>, x: Row, ordering: seq<OrderEntry>)
    requires Sorted(t, ordering)
    ensures Sorted(InsertSorted(t, x, ordering), ordering)
    decreases |t|
  {
    if t != [] {
      var d, l := t[..|t| - 1], t[|t| - 1];
      if CompareRows(l, x, ordering) <= 0 {
        forall i | 0 <= i < |t|
          ensures CompareRows(t[i], x, ordering) <= 0
        {
          if i < |t| - 1 {
            CompareRowsTransitive(t[i], l, x, ordering);
          }
        }
        SortedAppend(t, x, ordering);
      } else {
        assert Sorted(d, ordering) by {
          assert forall i :: 0 <= i < |d| ==> d[i] == t[i];
        }
        InsertSortedSorted(d, x, ordering);
        var u := InsertSorted(d, x, ordering);
        assert InsertSorted(t, x, ordering) == u + [l];
        CompareRowsAntisymmetric(l, x, ordering);
        forall i | 0 <= i < |u|
          ensures CompareRows(u[i], l, ordering) <= 0
        {
          InsertSortedMember(d, x, ordering, i);
          if u[i] != x {
            var j :| 0 <= j < |d| && d[j] == u[i];
            assert t[j] == u[i];
          }
        }
        SortedAppend(u, l, ordering);
      }
    }
  }

  /** `sort_rows` leaves the rows in non-decreasing `_compare_rows` order. */
  lemma {:induction false} StableSortSorted(s: seq<Row>, ordering: seq<OrderEntry>)
    ensures Sorted(StableSort(s, ordering), ordering)
    decreases |s|
  {
    if s != [] {
      StableSortSorted(s[..|s| - 1], ordering);
      InsertSortedSorted(StableSort(s[..|s| - 1], ordering), s[|s| - 1], ordering);
    }
  }

  /** The rows of `s` with the same key as `k`, in their order in `s`. */
  function WithKey(s: seq<Row>, k: Row, ordering: seq<OrderEntry>): (r: seq<Row>)
    ensures |r| <= |s|
    decreases |s|
  {
    if s == [] then []
    else WithKey(s[..|s| - 1], k, ordering) + (if CompareRows(s[|s| - 1], k, ordering) == 0 then [s[|s| - 1]] else [])
  }

  lemma {:induction false} WithKeyAppend(s: seq<Row>, t: seq<Row>, k: Row, ordering: seq<OrderEntry>)
    ensures WithKey(s + t, k, ordering) == WithKey(s, k, ordering) + WithKey(t, k, ordering)
    decreases |t|
  {
    if t == [] {
      assert s + t == s;
    } else {
      var st := s + t;
      assert st[..|st| - 1] == s + t[..|t| - 1];
      assert st[|st| - 1] == t[|t| - 1];
      WithKeyAppend(s, t[..|t| - 1], k, ordering);
    }
  }

  lemma WithKeySingle(y: Row, k: Row, ordering: seq<OrderEntry>)
    ensures WithKey([y], k, ordering) == if CompareRows(y, k, ordering) == 0 then [y] else []
  {
    assert [y][..0] == [];
  }

  lemma SameKeyCompareZero(a: Row, b: Row, k: Row, ordering: seq<OrderEntry>)
    requires CompareRows(a, k, ordering) == 0 && CompareRows(b, k, ordering) == 0
    ensures CompareRows(a, b, ordering) == 0
  {
    CompareRowsSameKey(a, k, b, ordering);
    CompareRowsSameKey(b, k, b, ordering);
    CompareRowsReflexive(b, ordering);
  }

  /** Two rows that compare unequal never both have the key of `k`. */
  lemma WithKeyDisjoint(l: Row, x: Row, k: Row, ordering: seq<OrderEntry>)
    requires CompareRows(l, x, ordering) != 0
    ensures WithKey([x], k, ordering) == [] || WithKey([l], k, ordering) == []
  {
    WithKeySingle(x, k, ordering);
    WithKeySingle(l, k, ordering);
    if CompareRows(x, k, ordering) == 0 && CompareRows(l, k, ordering) == 0 {
      SameKeyCompareZero(l, x, k, ordering);
    }
  }

  lemma InsertSortedAbove(d: seq<Row>, l: Row, x: Row, ordering: seq<OrderEntry>)
    requires CompareRows(l, x, ordering) > 0
    ensures InsertSorted(d + [l], x, ordering) == InsertSorted(d, x, ordering) + [l]
  {
    var t := d + [l];
    assert t[..|t| - 1] == d && t[|t| - 1] == l;
  }

  /** Moving `x` in front of a row `l` with a different key does not change
      the rows of any one key. */
  lemma WithKeyStep(d: seq<Row>, u: seq<Row>, l: Row, x: Row, k: Row, ordering: seq<OrderEntry>)
    requires WithKey(u, k, ordering) == WithKey(d + [x], k, ordering)
    requires CompareRows(l, x, ordering) > 0
    ensures WithKey(u + [l], k, ordering) == WithKey(d + [l] + [x], k, ordering)
  {
    var A, X, L := WithKey(d, k, ordering), WithKey([x], k, ordering), WithKey([l], k, ordering);
    assert WithKey(u + [l], k, ordering) == (A + X) + L by {
      WithKeyAppend(d, [x], k, ordering);
      WithKeyAppend(u, [l], k, ordering);
    }
    assert WithKey(d + [l] + [x], k, ordering) == (A + L) + X by {
      WithKeyAppend(d, [l], k, ordering);
      WithKeyAppend(d + [l], [x], k, ordering);
    }
    WithKeyDisjoint(l, x, k, ordering);
    if X == [] {
      assert A + X == A && (A + L) + X == A + L;
    } else {
      assert (A + X) + L == A + X && A + L == A;
    }
  }

  lemma {:induction false} InsertSortedStable(t: seq<Row>, x: Row, k: Row, ordering: seq<OrderEntry>)
    ensures WithKey(InsertSorted(t, x, ordering), k, ordering) == WithKey(t + [x], k, ordering)
    decreases |t|
  {
    if t != [] {
      var d, l := t[..|t| - 1], t[|t| - 1];
      assert t == d + [l];
      if CompareRows(l, x, ordering) > 0 {
        InsertSortedStable(d, x, k, ordering);
        InsertSortedAbove(d, l, x, ordering);
        WithKeyStep(d, InsertSorted(d, x, ordering), l, x, k, ordering);
      }
    }
  }

  /** `list.sort` is stable: the rows sharing any one key keep their
      relative order. */
  lemma {:induction false} StableSortStable(s: seq<Row>, k: Row, ordering: seq<OrderEntry>)
    ensures WithKey(StableSort(s, ordering), k, ordering) == WithKey(s, k, ordering)
    decreases |s|
  {
    if s != [] {
      var d, x := s[..|s| - 1], s[|s| - 1];
      assert s == d + [x];
      var sd := StableSort(d, ordering);
      assert StableSort(s, ordering) == InsertSorted(sd, x, ordering);
      StableSortStable(d, k, ordering);
      InsertSortedStable(sd, x, k, ordering);
      WithKeyAppend(sd, [x], k, ordering);
      WithKeyAppend(d, [x], k, ordering);
    }
  }

  // ---------------------------------------------------------------------------
  // sort_rows

  /** The `ordering` argument of `sort_rows`: a list or tuple of entries,
      or a bare string, which `sort_rows` wraps into a one-element tuple. */
  datatype OrderingArg = Text(text: string) | Many(entries: seq<OrderEntry>)

  /** The ordering `_compare_rows` iterates. A wrapped string is itself the
      one entry: its first character names the column, and its second
      character, when it has one, is the reverse flag, which as a non-empty
      string is always truthy; an empty string raises `IndexError` at
      `order[0]`. */
  function Entries(arg: OrderingArg): (r: Result<seq<OrderEntry>, Error>)
    ensures arg.Many? ==> r == Success(arg.entries)
    ensures arg.Text? ==> (r.Success? <==> arg.text != [])
    ensures arg.Text? && r.Success? ==>
              |r.value| == 1 && r.value[0].name == [arg.text[0]] && (Reversed(r.value[0]) <==> |arg.text| > 1)
  {
    match arg
    case Many(es) => Success(es)
    case Text(s) =>
      if s == [] then Failure(IndexError)
      else if |s| == 1 then Success([Column(s)])
      else Success([ColumnFlag([s[0]], true)])
  }

  /** `sort_rows(rows, "name")` orders the rows by the column `n`,
      descending: the comparison is the reversed `cmp` of the values of the
      string's first character as a column. */
  lemma TextOrderingSortsByFirstCharacter(text: string, r1: Row, r2: Row)
    requires |text| > 1
    ensures Entries(Text(text)).Success?
    ensures CompareRows(r1, r2, Entries(Text(text)).value) == -Cmp(Get(r1, [text[0]]), Get(r2, [text[0]]))
  {
    var es := Entries(Text(text)).value;
    assert es[1..] == [];
  }

  /** What the first comparison of `sort_rows` meets: the ordering
      `_compare_rows` iterates, or the exception it raises. Besides the empty
      string's `IndexError`, an empty list or tuple runs no iteration, so
      `return result` raises `UnboundLocalError` (the as-written half of the
      third Findings row, `CompareRowsAsWritten`). */
  function SortOrdering(arg: OrderingArg): (r: Result<seq<OrderEntry>, Error>)
    ensures r.Success? <==> Entries(arg).Success? && Entries(arg).value != []
    ensures r.Success? ==> r.value == Entries(arg).value
    ensures Entries(arg).Failure? ==> r == Entries(arg)
    ensures arg == Many([]) ==> r == Failure(UnboundLocalError)
  {
    match Entries(arg)
    case Failure(e) => Failure(e)
    case Success(es) => if es == [] then Failure(UnboundLocalError) else Success(es)
  }

  /** `sort_rows`: nothing happens without an ordering; otherwise the rows
      are sorted in place, stably, under `_compare_rows`. An ordering whose
      first comparison raises (the empty string, or an empty list or tuple)
      leaves the rows as they were, and raises only when there are two rows
      to compare. */
  method SortRows(rows: array<Row>, ordering: Option<OrderingArg>) returns (raised: Option<Error>)
    modifies rows
    ensures ordering.None? ==> raised.None? && rows[..] == old(rows[..])
    ensures ordering.Some? && SortOrdering(ordering.value).Success? ==>
              raised.None? && rows[..] == StableSort(old(rows[..]), SortOrdering(ordering.value).value)
    ensures ordering.Some? && SortOrdering(ordering.value).Failure? ==>
              rows[..] == old(rows[..])
              && (raised.Some? <==> rows.Length > 1)
              && (raised.Some? ==> raised.value == SortOrdering(ordering.value).error)
  {
    if ordering.None? {
      return None;
    }
    var entries := SortOrdering(ordering.value);
    if entries.Failure? {
      if rows.Length > 1 {
        return Some(entries.error);
      }
      return None;
    }
    var sorted := StableSort(rows[..], entries.value);
    forall i | 0 <= i < rows.Length {
      rows[i] := sorted[i];
    }
    return None;
  }

  /** `sort_rows([r1, r2], [])` raises `UnboundLocalError` and leaves the
      rows in place. */
  method SortTwoRowsByNothing(r1: Row, r2: Row) returns (raised: Option<Error>, rows: seq<Row>)
    ensures raised == Some(UnboundLocalError) && rows == [r1, r2]
  {
    var a := new Row[2];
    a[0], a[1] := r1, r2;
    assert a[..] == [r1, r2];
    assert SortOrdering(Many([])) == Failure(UnboundLocalError);
    raised := SortRows(a, Some(Many([])));
    rows := a[..];
  }

  /** `_compare_rows(row1, row2, (name, flag))`, which is what `sort_rows`
      receives when handed one bare entry tuple: the tuple is iterated as
      the ordering, so its first item, the column name string, is read as
      an entry (its first character as the column, its second character,
      always truthy, as the reverse flag) and its second item, the flag,
      is then subscripted. */
  function CompareTupleEntryAsWritten(r1: Row, r2: Row, e: OrderEntry): (r: Result<int, Error>)
    ensures e.name == [] ==> r == Failure(IndexError)
    ensures r.Success? && r.value != 0 ==> e.name != [] && Get(r1, [e.name[0]]) != Get(r2, [e.name[0]])
  {
    var name := e.name;
    if name == [] then Failure(IndexError)
    else
      var key := [name[0]];
      var c := Cmp(Get(r1, key), Get(r2, key));
      if c != 0 then Success(if |name| > 1 then -c else c)
      else if e.ColumnFlag? then Failure(TypeError)
      else Success(0)
  }

  /** Sorting two rows by the entry `("name", False)` passed bare raises
      `TypeError`, while the entry wrapped as a one-entry ordering compares
      the rows by `name`. */
  lemma BareEntryRaises()
    ensures var r1, r2 := map["name" := Some(Int(1))], map["name" := Some(Int(2))];
            && CompareTupleEntryAsWritten(r1, r2, ColumnFlag("name", false)) == Failure(TypeError)
            && CompareRows(r1, r2, [ColumnFlag("name", false)]) == -1
  {
    var r1: Row, r2: Row := map["name" := Some(Int(1))], map["name" := Some(Int(2))];
    assert Get(r1, "n") == None && Get(r2, "n") == None;
    assert Get(r1, "name") == Some(Int(1)) && Get(r2, "name") == Some(Int(2));
  }
}
