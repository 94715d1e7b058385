/** The predicate tree a Django `WHERE` clause is compiled into: range
    leaves, operation leaves (lookups Cassandra cannot serve) and compound
    AND/OR nodes, with the two questions asked of every node — can it be
    served by the database, and does a fetched row satisfy it. */
module Predicates {
  import opened Wrappers
  import opened Errors
  import opened Values
  import opened RangePredicates

  /** The value an operation lookup compares against: none, one value, or
      the list of an `in` lookup. */
  datatype Operand = NoOperand | Scalar(v: Value) | Items(vs: seq<Value>)

  /** A node of the predicate tree. A `Compound` node's children are the
      nodes added to it, in order. */
  datatype Pred =
    | Range(bounds: Bounds)
    | Operation(column: string, lookup: Lookup, operand: Operand)
    | Compound(connector: Connector, negated: bool, children: seq<Pred>)

  /** A regular-expression engine: does `pattern` match at the start of
      `subject`, ignoring case when the flag is set. */
  type Matcher = (string, string, bool) -> bool

  /** A regular-expression compiler: does `re.compile` accept `pattern`,
      with `re.I` when the flag is set. */
  type PatternCheck = (string, bool) -> bool

  predicate IsTextLookup(op: Lookup) {
    op in {IStartswith, Endswith, IEndswith, IExact, Contains, IContains, Regex, IRegex}
  }

  /** The string lookups of `OperationPredicate.row_matches`, on a row value
      that is present and an operand that is set. Calling a string method on
      an integer raises `AttributeError`; passing a non-string where a
      string is expected raises `TypeError`. */
  function TextLookup(op: Lookup, y: Value, operand: Operand, rx: Matcher): (r: Result<bool, Error>)
    requires IsTextLookup(op)
    ensures r.Success? ==> y.Str? && operand.Scalar? && operand.v.Str?
    ensures y.Str? && operand.Scalar? && operand.v.Str? ==> r.Success?
    ensures r.Success? && op == IExact ==> (r.value <==> Lower(y.s) == Lower(operand.v.s))
    ensures r.Success? && op == Contains ==> (r.value <==> IsSubstring(operand.v.s, y.s))
  {
    if op == Regex || op == IRegex then
      if y.Str? && operand.Scalar? && operand.v.Str? then Success(rx(operand.v.s, y.s, op == IRegex))
      else Failure(TypeError)
    else if !y.Str? then Failure(AttributeError)
    else if op in {IStartswith, IEndswith, IExact, IContains} then
      if !(operand.Scalar? && operand.v.Str?) then Failure(AttributeError)
      else
        var a, p := Lower(y.s), Lower(operand.v.s);
        Success(match op
          case IStartswith => HasPrefix(a, p)
          case IEndswith => HasSuffix(a, p)
          case IExact => a == p
          case _ => IsSubstring(p, a))
    else if !(operand.Scalar? && operand.v.Str?) then Failure(TypeError)
    else if op == Endswith then Success(HasSuffix(y.s, operand.v.s))
    else Success(IsSubstring(operand.v.s, y.s))
  }

  /** `OperationPredicate.row_matches`. */
  function OperationMatches(column: string, op: Lookup, operand: Operand, row: Row, rx: Matcher): (r: Result<bool, Error>)
    ensures op == IsNull ==> r == Success(Get(row, column).None?)
    ensures op != IsNull && (Get(row, column).None? || operand.NoOperand?) ==> r == Success(false)
    ensures r.Failure? && !(op in {In} || IsTextLookup(op)) ==> r.error == InvalidPredicateOp
    ensures op == In && operand.Items? ==> r == Success(Get(row, column).Some? && Get(row, column).value in operand.vs)
  {
    var x := Get(row, column);
    if op == IsNull then Success(x.None?)
    else if x.None? || operand.NoOperand? then Success(false)
    else if op == In then
      match operand
      case Items(vs) => Success(x.value in vs)
      case Scalar(p) =>
        // `row_value in value` on a string tests for a substring
        if x.value.Str? && p.Str? then Success(IsSubstring(x.value.s, p.s)) else Failure(TypeError)
    else if IsTextLookup(op) then TextLookup(op, x.value, operand, rx)
    else Failure(InvalidPredicateOp)
  }

  // ---------------------------------------------------------------------------
  // Can the node be served by the database?

  /** `can_evaluate_efficiently` over the whole tree, with Python's early
      exit: the first child that declines ends the loop, and an exception
      from a child propagates. */
  function Efficient(p: Pred, layout: Layout): (r: Result<bool, Error>)
    ensures p.Operation? ==> r == Success(false)
    ensures p.Compound? && p.negated ==> r == Success(false)
    ensures p.Range? ==> r == Success(RangeEfficient(p.bounds, layout))
    decreases p
  {
    match p
    case Range(b) => Success(RangeEfficient(b, layout))
    case Operation(_, _, _) => Success(false)
    case Compound(c, neg, ch) =>
      if neg then Success(false)
      else if c == And || c == Or then AllEfficient(ch, layout)
      else Failure(InvalidPredicateOp)
  }

  function AllEfficient(s: seq<Pred>, layout: Layout): Result<bool, Error>
    decreases s
  {
    if s == [] then Success(true)
    else
      match Efficient(s[0], layout)
      case Failure(e) => Failure(e)
      case Success(ok) => if ok then AllEfficient(s[1..], layout) else Success(false)
  }

  /** Every node of the tree can be served: ranges the layout supports and
      un-negated AND/OR nodes over such children. */
  ghost predicate Servable(p: Pred, layout: Layout)
    decreases p
  {
    match p
    case Range(b) => RangeEfficient(b, layout)
    case Operation(_, _, _) => false
    case Compound(c, neg, ch) =>
      !neg && (c == And || c == Or) && forall q :: q in ch ==> Servable(q, layout)
  }

  /** Every compound node uses the AND or the OR connector. */
  ghost predicate WellFormed(p: Pred)
    decreases p
  {
    match p
    case Compound(c, _, ch) => (c == And || c == Or) && forall q :: q in ch ==> WellFormed(q)
    case _ => true
  }

  lemma {:induction false} EfficientMeansServable(p: Pred, layout: Layout)
    ensures Efficient(p, layout) == Success(true) <==> Servable(p, layout)
    ensures WellFormed(p) ==> Efficient(p, layout).Success?
    decreases p
  {
    if p.Compound? && !p.negated && (p.connector == And || p.connector == Or) {
      AllEfficientMeansServable(p.children, layout);
    }
  }

  lemma {:induction false} AllEfficientMeansServable(s: seq<Pred>, layout: Layout)
    ensures AllEfficient(s, layout) == Success(true) <==> forall q :: q in s ==> Servable(q, layout)
    ensures (forall q :: q in s ==> WellFormed(q)) ==> AllEfficient(s, layout).Success?
    decreases s
  {
    if s != [] {
      EfficientMeansServable(s[0], layout);
      AllEfficientMeansServable(s[1..], layout);
      assert forall q :: q in s ==> q == s[0] || q in s[1..];
    }
  }

  // ---------------------------------------------------------------------------
  // Does a row satisfy the node?

  /** `row_matches` of any node. */
  function RowMatches(p: Pred, row: Row, rx: Matcher): Result<bool, Error>
    decreases p, 2
  {
    match p
    case Range(b) => Success(RowMatchesRange(b, row))
    case Operation(column, op, operand) => OperationMatches(column, op, operand, row, rx)
    case Compound(c, neg, ch) => SubsetMatches(c, neg, ch, row, rx)
  }

  /** `CompoundPredicate.row_matches_subset`: an AND loop that stops at the
      first child that fails, an OR loop that stops at the first child that
      holds, then the negation; an unknown connector raises before any child
      is evaluated. */
  function SubsetMatches(c: Connector, negated: bool, subset: seq<Pred>, row: Row, rx: Matcher): (r: Result<bool, Error>)
    ensures c.OtherConnector? ==> r == Failure(InvalidPredicateOp)
    ensures c == And && subset == [] ==> r == Success(!negated)
    ensures c == Or && subset == [] ==> r == Success(negated)
    decreases subset, 1
  {
    var inner := match c
      case And => AllMatch(subset, row, rx)
      case Or => AnyMatch(subset, row, rx)
      case OtherConnector(_) => Failure(InvalidPredicateOp);
    match inner
    case Failure(e) => Failure(e)
    case Success(m) => Success(if negated then !m else m)
  }

  function AllMatch(s: seq<Pred>, row: Row, rx: Matcher): Result<bool, Error>
    decreases s, 0
  {
    if s == [] then Success(true)
    else
      match RowMatches(s[0], row, rx)
      case Failure(e) => Failure(e)
      case Success(m) => if m then AllMatch(s[1..], row, rx) else Success(false)
  }

  function AnyMatch(s: seq<Pred>, row: Row, rx: Matcher): Result<bool, Error>
    decreases s, 0
  {
    if s == [] then Success(false)
    else
      match RowMatches(s[0], row, rx)
      case Failure(e) => Failure(e)
      case Success(m) => if m then Success(true) else AnyMatch(s[1..], row, rx)
  }

  /** No node of the tree raises on this row. */
  ghost predicate Defined(p: Pred, row: Row, rx: Matcher)
    decreases p
  {
    match p
    case Range(_) => true
    case Operation(column, op, operand) => OperationMatches(column, op, operand, row, rx).Success?
    case Compound(c, _, ch) => (c == And || c == Or) && forall q :: q in ch ==> Defined(q, row, rx)
  }

  /** What a row satisfying the tree means, without evaluation order: an AND
      node holds when all its children hold, an OR node when one does, and
      negation flips the answer. */
  ghost predicate Satisfies(p: Pred, row: Row, rx: Matcher)
    decreases p
  {
    match p
    case Range(b) => MatchesValue(b, Get(row, b.column))
    case Operation(column, op, operand) => OperationMatches(column, op, operand, row, rx) == Success(true)
    case Compound(c, neg, ch) =>
      neg != (if c == And then (forall q :: q in ch ==> Satisfies(q, row, rx))
              else (exists q :: q in ch && Satisfies(q, row, rx)))
  }

  lemma OperationLeaf(column: string, op: Lookup, operand: Operand, row: Row, rx: Matcher)
    requires OperationMatches(column, op, operand, row, rx).Success?
    ensures RowMatches(Operation(column, op, operand), row, rx)
            == Success(OperationMatches(column, op, operand, row, rx) == Success(true))
  {
    var p := Operation(column, op, operand);
    var r := OperationMatches(column, op, operand, row, rx);
    assert RowMatches(p, row, rx) == r;
    if r.value {
      assert r == Success(true);
    } else {
      assert r == Success(false);
    }
  }

  lemma {:induction false} RowMatchesMeaning(p: Pred, row: Row, rx: Matcher)
    requires Defined(p, row, rx)
    ensures RowMatches(p, row, rx) == Success(Satisfies(p, row, rx))
    decreases p, 2
  {
    match p
    case Range(b) =>
    case Operation(column, op, operand) =>
      OperationLeaf(column, op, operand, row, rx);
    case Compound(c, neg, ch) =>
      SubsetMatchesMeaning(c, neg, ch, row, rx);
  }

  /** The evaluation loops of `row_matches_subset` compute the declarative
      meaning whenever no child raises. */
  lemma {:induction false} SubsetMatchesMeaning(c: Connector, negated: bool, subset: seq<Pred>, row: Row, rx: Matcher)
    requires c == And || c == Or
    requires forall q :: q in subset ==> Defined(q, row, rx)
    ensures c == And ==> SubsetMatches(c, negated, subset, row, rx)
                         == Success(negated != forall q :: q in subset ==> Satisfies(q, row, rx))
    ensures c == Or ==> SubsetMatches(c, negated, subset, row, rx)
                        == Success(negated != exists q :: q in subset && Satisfies(q, row, rx))
    decreases subset, 1
  {
    AllAnyMatchMeaning(subset, row, rx);
  }

  lemma {:induction false} AllAnyMatchMeaning(s: seq<Pred>, row: Row, rx: Matcher)
    requires forall q :: q in s ==> Defined(q, row, rx)
    ensures AllMatch(s, row, rx) == Success(forall q :: q in s ==> Satisfies(q, row, rx))
    ensures AnyMatch(s, row, rx) == Success(exists q :: q in s && Satisfies(q, row, rx))
    decreases s, 0
  {
    if s != [] {
      RowMatchesMeaning(s[0], row, rx);
      AllAnyMatchMeaning(s[1..], row, rx);
      assert forall q :: q in s <==> q == s[0] || q in s[1..];
    }
  }

  // ---------------------------------------------------------------------------
  // Adding a filter to a compound node

  /** Where the scan of `add_filter` over the children stops: at the first
      range child that absorbs the lookup, at an exception, or nowhere. */
  datatype Scan = FoldedAt(index: nat, bounds: Bounds) | NoneAccepted | ScanRaised(error: Error)

  /** `incorporate_range_op` on any child: only range children can absorb. */
  function ChildFold(p: Pred, column: string, op: Lookup, v: Value, c: Connector): Fold {
    match p
    case Range(b) => Incorporate(b, column, op, v, c)
    case _ => NotIncorporated
  }

  /** The scan from child `i` on. */
  function ScanFrom(children: seq<Pred>, i: nat, column: string, op: Lookup, v: Value, c: Connector): (r: Scan)
    requires i <= |children|
    ensures r.FoldedAt? ==> i <= r.index < |children|
                            && ChildFold(children[r.index], column, op, v, c) == Incorporated(r.bounds)
                            && forall j :: i <= j < r.index ==> ChildFold(children[j], column, op, v, c) == NotIncorporated
    ensures r.NoneAccepted? ==> forall j :: i <= j < |children| ==> ChildFold(children[j], column, op, v, c) == NotIncorporated
    ensures r.ScanRaised? ==> exists j :: i <= j < |children| && ChildFold(children[j], column, op, v, c) == Raised(r.error)
                                         && forall k :: i <= k < j ==> ChildFold(children[k], column, op, v, c) == NotIncorporated
    decreases |children| - i
  {
    if i == |children| then NoneAccepted
    else
      match ChildFold(children[i], column, op, v, c)
      case Incorporated(nb) => FoldedAt(i, nb)
      case Raised(e) => ScanRaised(e)
      case NotIncorporated => ScanFrom(children, i + 1, column, op, v, c)
  }

  /** The children after `add_filter(column, op, value)` on a node with
      connector `c`: a range lookup is folded into the first range child that
      absorbs it, or else starts a new range child of its own (folded as under
      AND); any other lookup appends an operation child, whose constructor
      compiles the pattern of a `regex` or `iregex` lookup: an operand that is
      not a string raises `TypeError`, one `compiles` rejects raises
      `re.error`. */
  function AddedChildren(children: seq<Pred>, c: Connector, column: string, op: Lookup, value: Operand,
                         compiles: PatternCheck): (r: Result<seq<Pred>, Error>)
    requires op.IsRangeLookup() ==> value.Scalar?
    ensures r.Success? ==> |children| <= |r.value| <= |children| + 1
    ensures r.Success? && |r.value| == |children| + 1 ==> r.value[..|children|] == children
    ensures r.Failure? ==> op.IsRangeLookup() || op == Regex || op == IRegex
    ensures op == Regex || op == IRegex ==>
              (r.Success? <==> value.Scalar? && value.v.Str? && compiles(value.v.s, op == IRegex))
    ensures (op == Regex || op == IRegex) && !(value.Scalar? && value.v.Str?) ==> r == Failure(TypeError)
  {
    if op.IsRangeLookup() then
      match ScanFrom(children, 0, column, op, value.v, c)
      case FoldedAt(i, nb) => Success(children[i := Range(nb)])
      case ScanRaised(e) => Failure(e)
      case NoneAccepted =>
        var f := Incorporate(Unbounded(column), column, op, value.v, And);
        FreshFoldAccepts(column, op, value.v, None);
        if f.Raised? then Failure(f.error) else Success(children + [Range(f.bounds)])
    else if op == Regex || op == IRegex then
      if !(value.Scalar? && value.v.Str?) then Failure(TypeError)
      else if !compiles(value.v.s, op == IRegex) then Failure(RegexError)
      else Success(children + [Operation(column, op, value)])
    else Success(children + [Operation(column, op, value)])
  }

  /** What the new filter alone asks of a row. */
  ghost predicate FilterHolds(column: string, op: Lookup, value: Operand, row: Row, rx: Matcher)
    requires op.IsRangeLookup() ==> value.Scalar?
  {
    if op.IsRangeLookup() then LookupHolds(op, value.v, Get(row, column))
    else OperationMatches(column, op, value, row, rx) == Success(true)
  }

  lemma {:induction false} AllMatchAppend(s: seq<Pred>, p: Pred, row: Row, rx: Matcher)
    ensures AllMatch(s + [p], row, rx) == (match AllMatch(s, row, rx)
                                           case Success(true) => RowMatches(p, row, rx)
                                           case other => other)
    ensures AnyMatch(s + [p], row, rx) == (match AnyMatch(s, row, rx)
                                           case Success(false) => RowMatches(p, row, rx)
                                           case other => other)
    decreases s
  {
    if s == [] {
      assert [p][1..] == [];
    } else {
      assert (s + [p])[1..] == s[1..] + [p];
      AllMatchAppend(s[1..], p, row, rx);
    }
  }

  lemma {:induction false} AllMatchUpdate(s: seq<Pred>, i: nat, q: Pred, m: bool, row: Row, rx: Matcher)
    requires i < |s| && AllMatch(s, row, rx).Success?
    requires RowMatches(s[i], row, rx).Success?
    requires RowMatches(q, row, rx) == Success(RowMatches(s[i], row, rx).value && m)
    ensures AllMatch(s[i := q], row, rx) == Success(AllMatch(s, row, rx).value && m)
    decreases s
  {
    if i > 0 {
      assert s[i := q][0] == s[0] && s[i := q][1..] == s[1..][i - 1 := q];
      if RowMatches(s[0], row, rx) == Success(true) {
        AllMatchUpdate(s[1..], i - 1, q, m, row, rx);
      }
    }
  }

  lemma {:induction false} AnyMatchUpdate(s: seq<Pred>, i: nat, q: Pred, m: bool, row: Row, rx: Matcher)
    requires i < |s| && AnyMatch(s, row, rx).Success?
    requires RowMatches(s[i], row, rx).Success?
    requires RowMatches(q, row, rx) == Success(RowMatches(s[i], row, rx).value || m)
    ensures AnyMatch(s[i := q], row, rx) == Success(AnyMatch(s, row, rx).value || m)
    decreases s
  {
    if i > 0 {
      assert s[i := q][0] == s[0] && s[i := q][1..] == s[1..][i - 1 := q];
      if RowMatches(s[0], row, rx) == Success(false) {
        AnyMatchUpdate(s[1..], i - 1, q, m, row, rx);
      }
    }
  }

  /** `add_filter` keeps the meaning of the node: after it, a row matches
      the children of an AND node exactly when it matched them before and
      satisfies the new filter, and the children of an OR node exactly when
      it matched them before or satisfies the new filter. */
  lemma {:induction false} AddFilterMeaning(children: seq<Pred>, c: Connector, column: string, op: Lookup,
                                            value: Operand, compiles: PatternCheck, row: Row, rx: Matcher)
    requires c == And || c == Or
    requires op.IsRangeLookup() ==> value.Scalar?
    requires AddedChildren(children, c, column, op, value, compiles).Success?
    requires SubsetMatches(c, false, children, row, rx).Success?
    requires !op.IsRangeLookup() ==> OperationMatches(column, op, value, row, rx).Success?
    ensures var before := SubsetMatches(c, false, children, row, rx).value;
            var now := FilterHolds(column, op, value, row, rx);
            SubsetMatches(c, false, AddedChildren(children, c, column, op, value, compiles).value, row, rx)
              == Success(if c == And then before && now else before || now)
  {
    var now := FilterHolds(column, op, value, row, rx);
    var added := AddedChildren(children, c, column, op, value, compiles).value;
    if !op.IsRangeLookup() {
      var leaf := Operation(column, op, value);
      AllMatchAppend(children, leaf, row, rx);
      OperationLeaf(column, op, value, row, rx);
    } else {
      var v := value.v;
      var x := Get(row, column);
      match ScanFrom(children, 0, column, op, v, c)
      case FoldedAt(i, nb) =>
        var b := children[i].bounds;
        assert b.column == column;
        assert Get(row, nb.column) == x;
        if c == And {
          assert IncorporateAnd(b, op, v) == Incorporated(nb);
          AndFoldIsIntersection(b, op, v, x);
          AllMatchUpdate(children, i, Range(nb), now, row, rx);
        } else {
          assert IncorporateOr(b, op, v) == Incorporated(nb);
          OrFoldIsUnion(b, op, v, x);
          AnyMatchUpdate(children, i, Range(nb), now, row, rx);
        }
      case ScanRaised(e) =>
      case NoneAccepted =>
        var f := Incorporate(Unbounded(column), column, op, v, And);
        FreshFoldAccepts(column, op, v, x);
        AllMatchAppend(children, Range(f.bounds), row, rx);
        assert RowMatches(Range(f.bounds), row, rx) == Success(now);
    }
  }
}
