/** The compound node of the predicate tree as an object: its children list
    grows in place as filters are added, and it runs the query. */
module CompoundPredicates {
  import opened Wrappers
  import opened Errors
  import opened Values
  import opened RangePredicates
  import opened Predicates
  import opened RowSort
  import opened Matching
  import opened ModelFields

  lemma {:induction false} ClassifyKeepsFailure(s: seq<Pred>, j: nat, layout: Layout)
    requires j <= |s| && Classify(s[..j], layout).Failure?
    ensures Classify(s, layout) == Classify(s[..j], layout)
    decreases |s| - j
  {
    if j < |s| {
      assert s[..j + 1][..j] == s[..j];
      ClassifyKeepsFailure(s, j + 1, layout);
    } else {
      assert s[..j] == s;
    }
  }

  lemma {:induction false} FilterKeepsFailure(rows: seq<Row>, j: nat, c: Connector, negated: bool, subset: seq<Pred>, rx: Matcher)
    requires j <= |rows| && FilterRows(rows[..j], c, negated, subset, rx).Failure?
    ensures FilterRows(rows, c, negated, subset, rx) == FilterRows(rows[..j], c, negated, subset, rx)
    decreases |rows| - j
  {
    if j < |rows| {
      assert rows[..j + 1][..j] == rows[..j];
      FilterKeepsFailure(rows, j + 1, c, negated, subset, rx);
    } else {
      assert rows[..j] == rows;
    }
  }

  /** The first loop of `get_matching_rows`: each child goes to the
      servable or the fallback list. */
  method PartitionChildren(children: seq<Pred>, layout: Layout) returns (r: Result<Split, Error>)
    ensures r == SplitChildren(children, layout)
  {
    var efficient: seq<Pred>, fallback: seq<Pred> := [], [];
    ghost var flags: seq<bool> := [];
    var i := 0;
    while i < |children|
      invariant 0 <= i <= |children|
      invariant Classify(children[..i], layout) == Success(flags)
      invariant efficient == Kept(children[..i], flags, true)
      invariant fallback == Kept(children[..i], flags, false)
    {
      assert children[..i + 1] == children[..i] + [children[i]];
      assert children[..i + 1][..i] == children[..i];
      var ok := Efficient(children[i], layout);
      if ok.Failure? {
        ClassifyKeepsFailure(children, i + 1, layout);
        return Failure(ok.error);
      }
      KeptAppend(children[..i], flags, children[i], ok.value, true);
      KeptAppend(children[..i], flags, children[i], ok.value, false);
      if ok.value {
        efficient := efficient + [children[i]];
      } else {
        fallback := fallback + [children[i]];
      }
      flags := flags + [ok.value];
      i := i + 1;
    }
    assert children[..i] == children;
    return Success(Split(efficient, fallback));
  }

  /** The fallback filter of `get_matching_rows`: keep the fetched rows the
      fallback children accept. */
  method FilterFetched(fetched: seq<Row>, c: Connector, negated: bool, fallback: seq<Pred>, rx: Matcher)
    returns (r: Result<seq<Row>, Error>)
    ensures r == FilterRows(fetched, c, negated, fallback, rx)
  {
    var rows: seq<Row> := [];
    var j := 0;
    while j < |fetched|
      invariant 0 <= j <= |fetched|
      invariant FilterRows(fetched[..j], c, negated, fallback, rx) == Success(rows)
    {
      ghost var next := fetched[..j + 1];
      assert next[..|next| - 1] == fetched[..j] && next[|next| - 1] == fetched[j];
      var m := SubsetMatches(c, negated, fallback, fetched[j], rx);
      if m.Failure? {
        FilterKeepsFailure(fetched, j + 1, c, negated, fallback, rx);
        return Failure(m.error);
      }
      assert FilterRows(next, c, negated, fallback, rx) == Success(rows + if m.value then [fetched[j]] else []);
      if m.value {
        rows := rows + [fetched[j]];
      } else {
        assert rows + [] == rows;
      }
      j := j + 1;
    }
    assert fetched[..j] == fetched;
    return Success(rows);
  }

  /** The in-memory sorts of `get_matching_rows`: `sort_rows` once per
      inefficient ordering entry, on one buffer. */
  method SortByEach(rows: seq<Row>, entries: seq<OrderEntry>) returns (sorted: seq<Row>)
    ensures sorted == SortEach(rows, entries)
  {
    var buffer := new Row[|rows|](k requires 0 <= k < |rows| => rows[k]);
    assert buffer[..] == rows;
    var k := 0;
    while k < |entries|
      invariant 0 <= k <= |entries|
      invariant buffer[..] == SortEach(rows, entries[..k])
    {
      assert entries[..k + 1][..k] == entries[..k];
      var raised := SortRows(buffer, Some(Many([entries[k]])));
      k := k + 1;
    }
    assert entries[..k] == entries;
    sorted := buffer[..];
  }

  /** The loop of `add_filter` over the children: the first child that
      absorbs the range lookup, or the exception a child raises. */
  method FindAbsorbingChild(children: seq<Pred>, column: string, op: Lookup, v: Value, c: Connector)
    returns (scan: Scan)
    ensures scan == ScanFrom(children, 0, column, op, v, c)
  {
    var i := 0;
    while i < |children|
      invariant 0 <= i <= |children|
      invariant ScanFrom(children, 0, column, op, v, c) == ScanFrom(children, i, column, op, v, c)
    {
      var f := ChildFold(children[i], column, op, v, c);
      if f.Incorporated? {
        return FoldedAt(i, f.bounds);
      } else if f.Raised? {
        return ScanRaised(f.error);
      }
      i := i + 1;
    }
    return NoneAccepted;
  }

  class CompoundPredicate {
    var connector: Connector
    var negated: bool
    var children: seq<Pred>

    /** The node as a value of the predicate tree. */
    function AsPred(): Pred
      reads this
    {
      Compound(connector, negated, children)
    }

    /** `CompoundPredicate(op, negated, children)`: no children means an
        empty list. */
    constructor (connector: Connector, negated: bool, children: Option<seq<Pred>>)
      ensures AsPred() == Compound(connector, negated, children.GetOr([]))
    {
      this.connector := connector;
      this.negated := negated;
      this.children := children.GetOr([]);
    }

    /** `add_child`. */
    method AddChild(child: Pred)
      modifies this
      ensures AsPred() == Compound(old(connector), old(negated), old(children) + [child])
    {
      children := children + [child];
    }

    /** `add_filter(column, op, value)`: a range lookup is folded into the
        first child that absorbs it, else appended as a fresh range child;
        any other lookup is appended as an operation child, once its
        pattern compiles when it is a `regex` or `iregex` lookup. An
        exception from a fold or from compiling leaves the children as they
        were. */
    method AddFilter(field: Field, op: Lookup, value: Operand, compiles: PatternCheck) returns (r: Result<(), Error>)
      requires op.IsRangeLookup() ==> value.Scalar?
      modifies this
      ensures connector == old(connector) && negated == old(negated)
      ensures var added := AddedChildren(old(children), connector, ColumnName(field), op, value, compiles);
              && (added.Success? ==> r.Success? && children == added.value)
              && (added.Failure? ==> r == Failure(added.error) && children == old(children))
    {
      var column := ColumnName(field);
      if !op.IsRangeLookup() {
        if op == Regex || op == IRegex {
          if !(value.Scalar? && value.v.Str?) {
            return Failure(TypeError);
          }
          if !compiles(value.v.s, op == IRegex) {
            return Failure(RegexError);
          }
        }
        children := children + [Operation(column, op, value)];
        return Success(());
      }
      var v := value.v;
      var scan := FindAbsorbingChild(children, column, op, v, connector);
      match scan
      case FoldedAt(i, nb) =>
        children := children[i := Range(nb)];
        return Success(());
      case ScanRaised(e) =>
        return Failure(e);
      case NoneAccepted =>
        var started := Incorporate(Unbounded(column), column, op, v, And);
        FreshFoldAccepts(column, op, v, None);
        if started.Raised? {
          return Failure(started.error);
        }
        children := children + [Range(started.bounds)];
        return Success(());
    }

    /** `get_matching_rows`: split the children, refuse or warn about
        fallback work, filter the fetched rows, sort them by each
        inefficient ordering entry and slice them. */
    method GetMatchingRows(q: QueryContext, fetch: seq<Pred> -> seq<Row>, rx: Matcher)
      returns (r: Result<seq<Row>, Error>, warned: bool)
      ensures Outcome(r, warned) == MatchingRows(connector, negated, children, q, fetch, rx)
    {
      var split := PartitionChildren(children, QueryLayout(q));
      if split.Failure? {
        return Failure(split.error), false;
      }
      var inefficient := split.value.fallback != [] || q.inefficientOrdering != [];
      if inefficient && !q.allowsInefficient {
        return Failure(InefficientQuery), false;
      }
      warned := inefficient;
      // an OR or negated root with a fallback child reads every row and
      // filters by all the children
      var narrows := (connector == And && !negated) || split.value.fallback == [];
      var fetched := fetch(if narrows then split.value.efficient else []);
      var filterBy := if narrows then split.value.fallback else children;
      var rows := Success(fetched);
      if filterBy != [] {
        rows := FilterFetched(fetched, connector, negated, filterBy, rx);
        if rows.Failure? {
          return Failure(rows.error), warned;
        }
      }
      var sorted := SortByEach(rows.value, q.inefficientOrdering);
      if q.lowMark.Some? || q.highMark.Some? {
        r := Success(Islice(sorted, q.lowMark, q.highMark));
      } else {
        assert Islice(sorted, None, None) == sorted;
        r := Success(sorted);
      }
    }
  }
}
