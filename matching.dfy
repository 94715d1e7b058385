/** What `CompoundPredicate.get_matching_rows` computes: the children are
    split into those the database can serve and the fallback ones, the
    fetched rows are filtered by the fallback children, sorted by each
    inefficient ordering entry in turn and cut to `[low_mark:high_mark]`. */
module Matching {
  import opened Wrappers
  import opened Errors
  import opened Values
  import opened RangePredicates
  import opened Predicates
  import opened RowSort

  /** What `get_matching_rows` reads from the query. */
  datatype QueryContext = QueryContext(
    pkColumn: string,
    clusteringColumns: seq<string>,
    filterableColumns: seq<string>,
    inefficientOrdering: seq<OrderEntry>,
    allowsInefficient: bool,
    lowMark: Option<nat>,
    highMark: Option<nat>)

  /** The table layout the classification should see: the primary key
      column is the one partition column. */
  function QueryLayout(q: QueryContext): (r: Layout)
    ensures q.pkColumn in r.partition && |r.partition| == 1
  {
    Layout([q.pkColumn], q.clusteringColumns, q.filterableColumns)
  }

  /** The partition columns as the source passes them: the primary key
      column name itself, which `itertools.chain` iterates character by
      character. */
  function PartitionColumnsAsWritten(pk: string): (r: seq<string>)
    ensures |r| == |pk|
    ensures forall i :: 0 <= i < |pk| ==> r[i] == [pk[i]]
  {
    seq(|pk|, i requires 0 <= i < |pk| => [pk[i]])
  }

  /** With primary key column `id`, an exact lookup on `id` is not
      classified as servable as written, while one on a column named `i`
      is; with the key column passed as a one-element list, `id` is. */
  lemma PartitionAsWrittenMissesKey()
    ensures var exactId := Bounds("id", Some(Int(1)), true, Some(Int(1)), true);
            var exactI := Bounds("i", Some(Int(1)), true, Some(Int(1)), true);
            var asWritten := Layout(PartitionColumnsAsWritten("id"), [], []);
            && !RangeEfficient(exactId, asWritten)
            && RangeEfficient(exactI, asWritten)
            && RangeEfficient(exactId, QueryLayout(QueryContext("id", [], [], [], false, None, None)))
  {
    var asWritten := Layout(PartitionColumnsAsWritten("id"), [], []);
    assert asWritten.partition == ["i", "d"];
  }

  /** An exact lookup on the primary key is always served by the database. */
  lemma ExactKeyLookupIsServable(q: QueryContext, v: Value)
    ensures RangeEfficient(Bounds(q.pkColumn, Some(v), true, Some(v), true), QueryLayout(q))
  {
  }

  // ---------------------------------------------------------------------------
  // Splitting the children

  datatype Split = Split(efficient: seq<Pred>, fallback: seq<Pred>)

  /** The elements of `s` whose flag is `want`, in order. */
  function Kept<T>(s: seq<T>, flags: seq<bool>, want: bool): seq<T>
    requires |flags| == |s|
    decreases |s|
  {
    if s == [] then []
    else Kept(s[..|s| - 1], flags[..|s| - 1], want) + (if flags[|s| - 1] == want then [s[|s| - 1]] else [])
  }

  lemma KeptAppend<T>(s: seq<T>, flags: seq<bool>, x: T, b: bool, want: bool)
    requires |flags| == |s|
    ensures Kept(s + [x], flags + [b], want) == Kept(s, flags, want) + (if b == want then [x] else [])
  {
    assert (s + [x])[..|s|] == s && (flags + [b])[..|s|] == flags;
  }

  /** Every element lands in exactly one of the two lists. */
  lemma {:induction false} KeptPartition<T>(s: seq<T>, flags: seq<bool>)
    requires |flags| == |s|
    ensures multiset(Kept(s, flags, true)) + multiset(Kept(s, flags, false)) == multiset(s)
    decreases |s|
  {
    if s != [] {
      var init, last := s[..|s| - 1], s[|s| - 1];
      KeptPartition(init, flags[..|s| - 1]);
      assert s == init + [last];
    }
  }

  /** Each list holds only elements flagged for it. */
  lemma {:induction false} KeptFlags<T>(s: seq<T>, flags: seq<bool>, want: bool, x: T)
    requires |flags| == |s|
    requires x in Kept(s, flags, want)
    ensures exists i :: 0 <= i < |s| && s[i] == x && flags[i] == want
    decreases |s|
  {
    var n := |s| - 1;
    if x in Kept(s[..n], flags[..n], want) {
      KeptFlags(s[..n], flags[..n], want, x);
      var i :| 0 <= i < n && s[..n][i] == x && flags[..n][i] == want;
      assert s[i] == x && flags[i] == want;
    } else {
      assert s[n] == x && flags[n] == want;
    }
  }

  /** The classification loop: each child's `can_evaluate_efficiently`, in
      order, until one raises. */
  function Classify(s: seq<Pred>, layout: Layout): (r: Result<seq<bool>, Error>)
    ensures r.Success? ==> |r.value| == |s|
    ensures r.Success? ==> forall i :: 0 <= i < |s| ==> Efficient(s[i], layout) == Success(r.value[i])
    decreases |s|
  {
    if s == [] then Success([])
    else
      var init := s[..|s| - 1];
      match Classify(init, layout)
      case Failure(e) => Failure(e)
      case Success(flags) =>
        match Efficient(s[|s| - 1], layout)
        case Failure(e) => Failure(e)
        case Success(b) =>
          assert forall i :: 0 <= i < |init| ==> s[i] == init[i];
          Success(flags + [b])
  }

  /** The classification raises exactly when some child's does. */
  lemma {:induction false} ClassifyFailsOnlyOnRaise(s: seq<Pred>, layout: Layout)
    ensures Classify(s, layout).Failure? <==> exists i :: 0 <= i < |s| && Efficient(s[i], layout).Failure?
    decreases |s|
  {
    if s != [] {
      var init := s[..|s| - 1];
      ClassifyFailsOnlyOnRaise(init, layout);
      assert forall i :: 0 <= i < |init| ==> s[i] == init[i];
    }
  }

  /** The first loop of `get_matching_rows`: every child goes to the list
      its classification names, in order; an exception from a child
      propagates. */
  function SplitChildren(s: seq<Pred>, layout: Layout): (r: Result<Split, Error>)
    ensures r.Success? ==> multiset(r.value.efficient) + multiset(r.value.fallback) == multiset(s)
  {
    match Classify(s, layout)
    case Failure(e) => Failure(e)
    case Success(flags) =>
      KeptPartition(s, flags);
      Success(Split(Kept(s, flags, true), Kept(s, flags, false)))
  }

  /** The servable list holds only servable children and the fallback list
      only the others. */
  lemma SplitClasses(s: seq<Pred>, layout: Layout)
    requires SplitChildren(s, layout).Success?
    ensures forall q :: q in SplitChildren(s, layout).value.efficient ==> Efficient(q, layout) == Success(true)
    ensures forall q :: q in SplitChildren(s, layout).value.fallback ==> Efficient(q, layout) == Success(false)
  {
    var flags := Classify(s, layout).value;
    forall q, want | q in Kept(s, flags, want)
      ensures Efficient(q, layout) == Success(want)
    {
      KeptFlags(s, flags, want, q);
    }
  }

  // ---------------------------------------------------------------------------
  // Filtering, sorting, slicing

  /** The rows of `rows` that `p` accepts, in order. */
  function Selected(rows: seq<Row>, p: Pred, rx: Matcher): (r: seq<Row>)
    ensures |r| <= |rows|
    decreases |rows|
  {
    if rows == [] then []
    else
      var last := rows[|rows| - 1];
      Selected(rows[..|rows| - 1], p, rx) + (if RowMatches(p, last, rx) == Success(true) then [last] else [])
  }

  /** `[row for row in rows if self.row_matches_subset(row, subset)]`: the
      first row on which a predicate raises ends the comprehension. */
  function FilterRows(rows: seq<Row>, c: Connector, negated: bool, subset: seq<Pred>, rx: Matcher): (r: Result<seq<Row>, Error>)
    ensures r.Success? ==> r.value == Selected(rows, Compound(c, negated, subset), rx)
    decreases |rows|
  {
    if rows == [] then Success([])
    else
      var init, last := rows[..|rows| - 1], rows[|rows| - 1];
      match FilterRows(init, c, negated, subset, rx)
      case Failure(e) => Failure(e)
      case Success(kept) =>
        match SubsetMatches(c, negated, subset, last, rx)
        case Failure(e) => Failure(e)
        case Success(m) => Success(kept + (if m then [last] else []))
  }

  /** The filter raises exactly when the node raises on some row. */
  lemma {:induction false} FilterRowsFailsOnlyOnRaise(rows: seq<Row>, c: Connector, negated: bool, subset: seq<Pred>, rx: Matcher)
    ensures FilterRows(rows, c, negated, subset, rx).Success?
        <==> forall i :: 0 <= i < |rows| ==> SubsetMatches(c, negated, subset, rows[i], rx).Success?
    decreases |rows|
  {
    if rows != [] {
      var init := rows[..|rows| - 1];
      FilterRowsFailsOnlyOnRaise(init, c, negated, subset, rx);
      assert forall i :: 0 <= i < |init| ==> init[i] == rows[i];
    }
  }

  lemma {:induction false} SelectedMembers(rows: seq<Row>, p: Pred, rx: Matcher)
    ensures forall x :: x in Selected(rows, p, rx) <==> x in rows && RowMatches(p, x, rx) == Success(true)
    decreases |rows|
  {
    if rows != [] {
      var init := rows[..|rows| - 1];
      SelectedMembers(init, p, rx);
      assert rows == init + [rows[|rows| - 1]];
    }
  }

  /** The per-entry sorts of `get_matching_rows`, each entry used as a
      one-entry ordering, in list order. */
  function SortEach(rows: seq<Row>, entries: seq<OrderEntry>): (r: seq<Row>)
    ensures multiset(r) == multiset(rows)
    decreases |entries|
  {
    if entries == [] then rows
    else StableSort(SortEach(rows, entries[..|entries| - 1]), [entries[|entries| - 1]])
  }

  /** The last entry sorted by decides the final order, and rows that tie
      on it keep the order the earlier sorts gave them. */
  lemma SortEachLastEntryDecides(rows: seq<Row>, entries: seq<OrderEntry>, k: Row)
    requires entries != []
    ensures var last := [entries[|entries| - 1]];
            var before := SortEach(rows, entries[..|entries| - 1]);
            && Sorted(SortEach(rows, entries), last)
            && WithKey(SortEach(rows, entries), k, last) == WithKey(before, k, last)
  {
    var last := [entries[|entries| - 1]];
    var before := SortEach(rows, entries[..|entries| - 1]);
    StableSortSorted(before, last);
    StableSortStable(before, k, last);
  }

  function Min(a: int, b: int): int { if a <= b then a else b }
  function Max(a: int, b: int): int { if a <= b then b else a }

  /** `itertools.islice(rows, low_mark, high_mark)`, where `None` means
      from the start / to the end. */
  function Islice(rows: seq<Row>, low: Option<nat>, high: Option<nat>): (r: seq<Row>)
    ensures |r| == Max(0, Min(high.GetOr(|rows|), |rows|) - low.GetOr(0))
    ensures forall i :: 0 <= i < |r| ==> low.GetOr(0) + i < |rows| && r[i] == rows[low.GetOr(0) + i]
  {
    var start := Min(low.GetOr(0), |rows|);
    var stop := Max(start, Min(high.GetOr(|rows|), |rows|));
    rows[start..stop]
  }

  // ---------------------------------------------------------------------------
  // The whole pipeline

  /** The rows `get_matching_rows` returns, or the exception it raises, and
      whether it issued the inefficient-query warning. */
  datatype Outcome = Outcome(result: Result<seq<Row>, Error>, warned: bool)

  /** The fallback work the query needs. */
  predicate NeedsFallback(sp: Split, q: QueryContext) {
    sp.fallback != [] || q.inefficientOrdering != []
  }

  /** Whether the rows fetched for the servable children, filtered by the
      fallback children, are the rows the node accepts: true for an
      un-negated AND root, and when every child is servable. */
  predicate FetchNarrows(c: Connector, negated: bool, sp: Split) {
    (c == And && !negated) || sp.fallback == []
  }

  /** The filter by the fallback children, which only runs when there are
      some. */
  function FallbackFilter(fetched: seq<Row>, c: Connector, negated: bool, fallback: seq<Pred>, rx: Matcher): Result<seq<Row>, Error> {
    if fallback != [] then FilterRows(fetched, c, negated, fallback, rx) else Success(fetched)
  }

  /** The filter, the per-entry sorts and the slice applied to the fetched
      rows. */
  function Finish(fetched: seq<Row>, c: Connector, negated: bool, filterBy: seq<Pred>,
                  warned: bool, q: QueryContext, rx: Matcher): (r: Outcome)
    ensures r.warned == warned
  {
    match FallbackFilter(fetched, c, negated, filterBy, rx)
    case Failure(e) => Outcome(Failure(e), warned)
    case Success(rows) => Outcome(Success(Islice(SortEach(rows, q.inefficientOrdering), q.lowMark, q.highMark)), warned)
  }

  /** `get_matching_rows` with its filter as written: the rows fetched for
      the servable children are filtered by the fallback children under the
      root's connector and negation, whatever that connector is. Only the
      filter is as written: the children are classified under the corrected
      `QueryLayout` and the rows sorted by the wrapped per-entry sorts of
      `SortEach`, so this member isolates the OR-root defect from the other
      two. */
  function MatchingRowsAsWritten(c: Connector, negated: bool, children: seq<Pred>, q: QueryContext,
                                 fetch: seq<Pred> -> seq<Row>, rx: Matcher): (r: Outcome)
    ensures r.warned ==> q.allowsInefficient
    ensures SplitChildren(children, QueryLayout(q)).Failure? ==> r.result.Failure?
  {
    match SplitChildren(children, QueryLayout(q))
    case Failure(e) => Outcome(Failure(e), false)
    case Success(sp) =>
      if NeedsFallback(sp, q) && !q.allowsInefficient then Outcome(Failure(InefficientQuery), false)
      else Finish(fetch(sp.efficient), c, negated, sp.fallback, NeedsFallback(sp, q), q, rx)
  }

  /** `get_matching_rows` of a compound node with connector `c`, flag
      `negated` and `children`; `fetch` stands for the database query built
      from the pushed-down children. Corrected for OR and negated roots with
      a fallback child: those fetch every row and filter by all the
      children, since the servable children alone may reject rows the node
      accepts (see `OrRootAsWrittenDropsRows`). */
  function MatchingRows(c: Connector, negated: bool, children: seq<Pred>, q: QueryContext,
                        fetch: seq<Pred> -> seq<Row>, rx: Matcher): (r: Outcome)
    ensures r.warned ==> q.allowsInefficient
    ensures SplitChildren(children, QueryLayout(q)).Failure? ==> r.result.Failure?
    ensures SplitChildren(children, QueryLayout(q)).Success?
            && FetchNarrows(c, negated, SplitChildren(children, QueryLayout(q)).value)
            ==> r == MatchingRowsAsWritten(c, negated, children, q, fetch, rx)
  {
    match SplitChildren(children, QueryLayout(q))
    case Failure(e) => Outcome(Failure(e), false)
    case Success(sp) =>
      if NeedsFallback(sp, q) && !q.allowsInefficient then Outcome(Failure(InefficientQuery), false)
      else if FetchNarrows(c, negated, sp) then Finish(fetch(sp.efficient), c, negated, sp.fallback, NeedsFallback(sp, q), q, rx)
      else Finish(fetch([]), c, negated, children, NeedsFallback(sp, q), q, rx)
  }

  /** The query is refused exactly when it needs fallback work the query
      does not allow, and warns exactly when it needs allowed fallback work. */
  lemma InefficientQueryGate(c: Connector, negated: bool, children: seq<Pred>, q: QueryContext,
                             fetch: seq<Pred> -> seq<Row>, rx: Matcher)
    requires SplitChildren(children, QueryLayout(q)).Success?
    ensures var sp := SplitChildren(children, QueryLayout(q)).value;
            var r := MatchingRows(c, negated, children, q, fetch, rx);
            && (NeedsFallback(sp, q) && !q.allowsInefficient ==> r.result == Failure(InefficientQuery))
            && (r.warned <==> NeedsFallback(sp, q) && q.allowsInefficient)
            && (!NeedsFallback(sp, q) ==> r.result == Success(Islice(fetch(sp.efficient), q.lowMark, q.highMark)))
  {
  }

  lemma SelectedAppend(rows: seq<Row>, x: Row, p: Pred, rx: Matcher)
    ensures Selected(rows + [x], p, rx)
         == Selected(rows, p, rx) + (if RowMatches(p, x, rx) == Success(true) then [x] else [])
  {
    var t := rows + [x];
    assert t[..|t| - 1] == rows && t[|t| - 1] == x;
  }

  lemma SelectedTwiceStep(init: seq<Row>, last: Row, p: Pred, f: Pred, both: Pred, rx: Matcher)
    requires Selected(Selected(init, p, rx), f, rx) == Selected(init, both, rx)
    requires RowMatches(p, last, rx).Success? && RowMatches(f, last, rx).Success?
    requires RowMatches(both, last, rx) == Success(RowMatches(p, last, rx).value && RowMatches(f, last, rx).value)
    ensures Selected(Selected(init + [last], p, rx), f, rx) == Selected(init + [last], both, rx)
  {
    SelectedAppend(init, last, p, rx);
    SelectedAppend(init, last, both, rx);
    var sp := Selected(init, p, rx);
    if RowMatches(p, last, rx) == Success(true) {
      assert Selected(init + [last], p, rx) == sp + [last];
      SelectedAppend(sp, last, f, rx);
      assert RowMatches(both, last, rx) == RowMatches(f, last, rx);
    } else {
      assert Selected(init + [last], p, rx) == sp;
      assert RowMatches(both, last, rx) == Success(false);
    }
  }

  lemma {:induction false} SelectedTwice(rows: seq<Row>, p: Pred, f: Pred, both: Pred, rx: Matcher)
    requires forall x :: x in rows ==>
      RowMatches(p, x, rx).Success? && RowMatches(f, x, rx).Success?
      && RowMatches(both, x, rx) == Success(RowMatches(p, x, rx).value && RowMatches(f, x, rx).value)
    ensures Selected(Selected(rows, p, rx), f, rx) == Selected(rows, both, rx)
    decreases |rows|
  {
    if rows != [] {
      var init, last := rows[..|rows| - 1], rows[|rows| - 1];
      assert rows == init + [last];
      assert last in rows;
      assert forall x :: x in init ==> x in rows;
      SelectedTwice(init, p, f, both, rx);
      SelectedTwiceStep(init, last, p, f, both, rx);
    }
  }

  lemma {:induction false} SelectedSame(rows: seq<Row>, p: Pred, both: Pred, rx: Matcher)
    requires forall x :: x in rows ==> RowMatches(p, x, rx) == RowMatches(both, x, rx)
    ensures Selected(rows, p, rx) == Selected(rows, both, rx)
    decreases |rows|
  {
    if rows != [] {
      assert forall x :: x in rows[..|rows| - 1] ==> x in rows;
      SelectedSame(rows[..|rows| - 1], p, both, rx);
    }
  }

  /** On an AND node, a row satisfies all children exactly when it satisfies
      the servable ones and the fallback ones. */
  lemma AndSplitMeaning(children: seq<Pred>, sp: Split, x: Row, rx: Matcher)
    requires multiset(sp.efficient) + multiset(sp.fallback) == multiset(children)
    requires forall p :: p in children ==> Defined(p, x, rx)
    ensures forall p :: p in sp.efficient ==> Defined(p, x, rx)
    ensures forall p :: p in sp.fallback ==> Defined(p, x, rx)
    ensures RowMatches(Compound(And, false, sp.efficient), x, rx).Success?
    ensures RowMatches(Compound(And, false, sp.fallback), x, rx).Success?
    ensures RowMatches(Compound(And, false, children), x, rx)
         == Success(RowMatches(Compound(And, false, sp.efficient), x, rx).value
                    && RowMatches(Compound(And, false, sp.fallback), x, rx).value)
  {
    assert forall p :: p in children <==> p in sp.efficient || p in sp.fallback by {
      forall p
        ensures p in children <==> p in sp.efficient || p in sp.fallback
      {
        assert p in children <==> p in multiset(children);
        assert p in sp.efficient <==> p in multiset(sp.efficient);
        assert p in sp.fallback <==> p in multiset(sp.fallback);
      }
    }
    SubsetMatchesMeaning(And, false, children, x, rx);
    SubsetMatchesMeaning(And, false, sp.efficient, x, rx);
    SubsetMatchesMeaning(And, false, sp.fallback, x, rx);
  }

  /** Under an un-negated AND root, filtering the rows the servable
      children accept by the fallback children leaves the rows all children
      accept. */
  lemma AndFallbackFilter(children: seq<Pred>, sp: Split, table: seq<Row>, rx: Matcher)
    requires multiset(sp.efficient) + multiset(sp.fallback) == multiset(children)
    requires forall x, p :: x in table && p in children ==> Defined(p, x, rx)
    ensures FallbackFilter(Selected(table, Compound(And, false, sp.efficient), rx), And, false, sp.fallback, rx)
         == Success(Selected(table, Compound(And, false, children), rx))
  {
    var eff, fb := Compound(And, false, sp.efficient), Compound(And, false, sp.fallback);
    var all := Compound(And, false, children);
    forall x | x in table
      ensures RowMatches(eff, x, rx).Success? && RowMatches(fb, x, rx).Success?
      ensures RowMatches(all, x, rx) == Success(RowMatches(eff, x, rx).value && RowMatches(fb, x, rx).value)
    {
      AndSplitMeaning(children, sp, x, rx);
    }
    var fetched := Selected(table, eff, rx);
    if sp.fallback != [] {
      SelectedMembers(table, eff, rx);
      FilterRowsFailsOnlyOnRaise(fetched, And, false, sp.fallback, rx);
      assert forall i :: 0 <= i < |fetched| ==> fetched[i] in table;
      SelectedTwice(table, eff, fb, all, rx);
    } else {
      SelectedSame(table, eff, all, rx);
    }
  }

  /** Under an un-negated AND root, a store that answers the pushed-down
      children as a conjunction makes `get_matching_rows` return the table
      rows the whole node accepts, sorted by each inefficient ordering entry
      and sliced. */
  lemma AndRootReturnsMatchingRows(children: seq<Pred>, q: QueryContext,
                                   fetch: seq<Pred> -> seq<Row>, table: seq<Row>, rx: Matcher)
    requires SplitChildren(children, QueryLayout(q)).Success?
    requires forall ps :: fetch(ps) == Selected(table, Compound(And, false, ps), rx)
    requires forall x, p :: x in table && p in children ==> Defined(p, x, rx)
    requires q.allowsInefficient || !NeedsFallback(SplitChildren(children, QueryLayout(q)).value, q)
    ensures MatchingRows(And, false, children, q, fetch, rx).result
         == Success(Islice(SortEach(Selected(table, Compound(And, false, children), rx), q.inefficientOrdering),
                           q.lowMark, q.highMark))
  {
    var sp := SplitChildren(children, QueryLayout(q)).value;
    AndFallbackFilter(children, sp, table, rx);
  }

  /** Under an OR or negated root with a fallback child, the corrected
      pipeline reads every row and returns the table rows the whole node
      accepts, sorted by each inefficient ordering entry and sliced. */
  lemma FallbackRootReturnsMatchingRows(c: Connector, negated: bool, children: seq<Pred>, q: QueryContext,
                                        fetch: seq<Pred> -> seq<Row>, table: seq<Row>, rx: Matcher)
    requires c == And || c == Or
    requires SplitChildren(children, QueryLayout(q)).Success?
    requires !FetchNarrows(c, negated, SplitChildren(children, QueryLayout(q)).value)
    requires fetch([]) == table
    requires forall x, p :: x in table && p in children ==> Defined(p, x, rx)
    requires q.allowsInefficient
    ensures MatchingRows(c, negated, children, q, fetch, rx).result
         == Success(Islice(SortEach(Selected(table, Compound(c, negated, children), rx), q.inefficientOrdering),
                           q.lowMark, q.highMark))
  {
    var sp := SplitChildren(children, QueryLayout(q)).value;
    assert sp.fallback[0] in multiset(sp.fallback);
    assert children != [];
    forall i | 0 <= i < |table|
      ensures SubsetMatches(c, negated, children, table[i], rx).Success?
    {
      SubsetMatchesMeaning(c, negated, children, table[i], rx);
    }
    FilterRowsFailsOnlyOnRaise(table, c, negated, children, rx);
  }

  // The example of `OrRootAsWrittenDropsRows`: key column `id`, clustering
  // column `c`, a servable exact lookup on `c`, and an `isnull` lookup on
  // `name`. A clustering column is served under either key layout, so the
  // example does not depend on the correction of `QueryLayout`.
  const ExampleKey: Pred := Range(Bounds("c", Some(Int(1)), true, Some(Int(1)), true))
  const ExampleNoName: Pred := Operation("name", IsNull, NoOperand)
  const ExampleRow: Row := map["c" := Some(Int(1)), "name" := Some(Str("n"))]
  const ExampleQuery: QueryContext := QueryContext("id", ["c"], [], [], true, None, None)

  /** The key layout as the source builds it for `ExampleQuery`. */
  function ExampleLayoutAsWritten(): Layout {
    Layout(PartitionColumnsAsWritten(ExampleQuery.pkColumn), ExampleQuery.clusteringColumns,
           ExampleQuery.filterableColumns)
  }

  lemma ExampleClassifyUnder(layout: Layout)
    requires RangeEfficient(ExampleKey.bounds, layout)
    ensures Classify([ExampleKey, ExampleNoName], layout) == Success([true, false])
  {
    var one, two := [ExampleKey], [ExampleKey, ExampleNoName];
    assert one[..0] == [] && two[..1] == one && one[0] == ExampleKey && two[1] == ExampleNoName;
    assert Classify(one[..0], layout) == Success([]);
    assert Classify(one, layout) == Success([] + [true]);
    assert [] + [true] == [true] && [true] + [false] == [true, false];
    assert Classify(two, layout) == Success([true] + [false]);
  }

  lemma ExampleClassify()
    ensures Classify([ExampleKey, ExampleNoName], QueryLayout(ExampleQuery)) == Success([true, false])
    ensures Classify([ExampleKey, ExampleNoName], ExampleLayoutAsWritten()) == Success([true, false])
  {
    assert ExampleLayoutAsWritten().clustering == ["c"] && QueryLayout(ExampleQuery).clustering == ["c"];
    ExampleClassifyUnder(QueryLayout(ExampleQuery));
    ExampleClassifyUnder(ExampleLayoutAsWritten());
  }

  lemma ExampleSplit()
    ensures SplitChildren([ExampleKey, ExampleNoName], QueryLayout(ExampleQuery))
         == Success(Split([ExampleKey], [ExampleNoName]))
  {
    ExampleClassify();
    var s, flags := [ExampleKey, ExampleNoName], [true, false];
    assert s[..1] == [ExampleKey] && flags[..1] == [true];
    assert [ExampleKey][..0] == [] && [true][..0] == [];
    assert Kept([ExampleKey], [true], true) == [ExampleKey] && Kept([ExampleKey], [true], false) == [];
    assert Kept(s, flags, true) == [ExampleKey] + [];
    assert Kept(s, flags, false) == [] + [ExampleNoName];
    assert [ExampleKey] + [] == [ExampleKey] && [] + [ExampleNoName] == [ExampleNoName];
  }

  lemma ExampleLeaves(rx: Matcher)
    ensures RowMatches(ExampleKey, ExampleRow, rx) == Success(true)
    ensures RowMatches(ExampleNoName, ExampleRow, rx) == Success(false)
  {
    assert Get(ExampleRow, "c") == Some(Int(1));
    assert Get(ExampleRow, "name") == Some(Str("n"));
  }

  lemma ExampleNodes(rx: Matcher)
    ensures RowMatches(Compound(And, false, [ExampleKey]), ExampleRow, rx) == Success(true)
    ensures RowMatches(Compound(And, false, []), ExampleRow, rx) == Success(true)
    ensures RowMatches(Compound(Or, false, [ExampleNoName]), ExampleRow, rx) == Success(false)
    ensures RowMatches(Compound(Or, false, [ExampleKey, ExampleNoName]), ExampleRow, rx) == Success(true)
  {
    ExampleLeaves(rx);
    assert [ExampleKey][1..] == [] && [ExampleNoName][1..] == [];
    assert AllMatch([], ExampleRow, rx) == Success(true);
    assert AllMatch([ExampleKey], ExampleRow, rx) == Success(true);
    assert AnyMatch([], ExampleRow, rx) == Success(false);
    assert AnyMatch([ExampleNoName], ExampleRow, rx) == Success(false);
    assert AnyMatch([ExampleKey, ExampleNoName], ExampleRow, rx) == Success(true);
  }

  lemma SelectedSingle(x: Row, p: Pred, rx: Matcher)
    ensures Selected([x], p, rx) == if RowMatches(p, x, rx) == Success(true) then [x] else []
  {
    assert [x][..0] == [];
  }

  lemma FilterRowsSingle(x: Row, c: Connector, negated: bool, subset: seq<Pred>, rx: Matcher)
    ensures FilterRows([x], c, negated, subset, rx).Success? <==> SubsetMatches(c, negated, subset, x, rx).Success?
  {
    assert [x][..0] == [];
  }

  lemma ExampleSelections(rx: Matcher)
    ensures Selected([ExampleRow], Compound(And, false, [ExampleKey]), rx) == [ExampleRow]
    ensures Selected([ExampleRow], Compound(And, false, []), rx) == [ExampleRow]
    ensures Selected([ExampleRow], Compound(Or, false, [ExampleNoName]), rx) == []
    ensures Selected([ExampleRow], Compound(Or, false, [ExampleKey, ExampleNoName]), rx) == [ExampleRow]
    ensures FilterRows([ExampleRow], Or, false, [ExampleNoName], rx).Success?
    ensures FilterRows([ExampleRow], Or, false, [ExampleKey, ExampleNoName], rx).Success?
  {
    ExampleNodes(rx);
    SelectedSingle(ExampleRow, Compound(And, false, [ExampleKey]), rx);
    SelectedSingle(ExampleRow, Compound(And, false, []), rx);
    SelectedSingle(ExampleRow, Compound(Or, false, [ExampleNoName]), rx);
    SelectedSingle(ExampleRow, Compound(Or, false, [ExampleKey, ExampleNoName]), rx);
    FilterRowsSingle(ExampleRow, Or, false, [ExampleNoName], rx);
    FilterRowsSingle(ExampleRow, Or, false, [ExampleKey, ExampleNoName], rx);
  }

  /** A store holding the one row `ExampleRow`, answering the pushed-down
      children as a conjunction. */
  function ExampleStore(rx: Matcher): seq<Pred> -> seq<Row> {
    ps => Selected([ExampleRow], Compound(And, false, ps), rx)
  }

  /** What either pipeline returns once the split is known and the query
      allows the fallback work; with no ordering and no marks the result is
      the filtered rows themselves. */
  lemma PipelineAfterSplit(c: Connector, negated: bool, children: seq<Pred>, q: QueryContext,
                           fetch: seq<Pred> -> seq<Row>, rx: Matcher, sp: Split, filtered: seq<Row>)
    requires SplitChildren(children, QueryLayout(q)) == Success(sp)
    requires q.allowsInefficient && q.inefficientOrdering == [] && q.lowMark.None? && q.highMark.None?
    ensures FallbackFilter(fetch(sp.efficient), c, negated, sp.fallback, rx) == Success(filtered)
            ==> MatchingRowsAsWritten(c, negated, children, q, fetch, rx).result == Success(filtered)
    ensures !FetchNarrows(c, negated, sp) && FallbackFilter(fetch([]), c, negated, children, rx) == Success(filtered)
            ==> MatchingRows(c, negated, children, q, fetch, rx).result == Success(filtered)
  {
    assert Islice(SortEach(filtered, []), None, None) == filtered;
  }

  lemma ExampleAsWritten(rx: Matcher)
    ensures MatchingRowsAsWritten(Or, false, [ExampleKey, ExampleNoName], ExampleQuery, ExampleStore(rx), rx).result
         == Success([])
  {
    ExampleSplit();
    ExampleSelections(rx);
    var sp := Split([ExampleKey], [ExampleNoName]);
    assert ExampleStore(rx)([ExampleKey]) == [ExampleRow];
    assert FallbackFilter([ExampleRow], Or, false, [ExampleNoName], rx) == Success([]);
    PipelineAfterSplit(Or, false, [ExampleKey, ExampleNoName], ExampleQuery, ExampleStore(rx), rx, sp, []);
  }

  lemma ExampleCorrected(rx: Matcher)
    ensures MatchingRows(Or, false, [ExampleKey, ExampleNoName], ExampleQuery, ExampleStore(rx), rx).result
         == Success([ExampleRow])
  {
    ExampleSplit();
    ExampleSelections(rx);
    var children, sp := [ExampleKey, ExampleNoName], Split([ExampleKey], [ExampleNoName]);
    assert ExampleStore(rx)([]) == [ExampleRow];
    assert FallbackFilter([ExampleRow], Or, false, children, rx) == Success([ExampleRow]);
    PipelineAfterSplit(Or, false, children, ExampleQuery, ExampleStore(rx), rx, sp, [ExampleRow]);
  }

  /** As written, the OR root `c = 1 OR name IS NULL`, with `c` a clustering
      column, drops the row `{c: 1, name: "n"}`, which satisfies the first
      child: the store returns it for the servable `c = 1`, and the filter
      then asks only whether `name IS NULL`. The corrected pipeline returns
      it. The children are classified alike under the source's own key
      layout, so the drop is the program's as written. */
  lemma OrRootAsWrittenDropsRows(rx: Matcher)
    ensures var children := [ExampleKey, ExampleNoName];
            && Classify(children, ExampleLayoutAsWritten()) == Classify(children, QueryLayout(ExampleQuery))
            && Selected([ExampleRow], Compound(Or, false, children), rx) == [ExampleRow]
            && MatchingRowsAsWritten(Or, false, children, ExampleQuery, ExampleStore(rx), rx).result == Success([])
            && MatchingRows(Or, false, children, ExampleQuery, ExampleStore(rx), rx).result == Success([ExampleRow])
  {
    ExampleClassify();
    ExampleSelections(rx);
    ExampleAsWritten(rx);
    ExampleCorrected(rx);
  }
}
