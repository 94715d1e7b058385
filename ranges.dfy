/** The range predicate: one column's interval, the folding of comparison
    lookups into it, and its row test. */
module RangePredicates {
  import opened Wrappers
  import opened Errors
  import opened Values

  /** The lookup a filter carries (`gt`, `startswith`, `isnull`, ...). */
  datatype Lookup =
    | Lt | Lte | Gt | Gte | Eq | Exact | Startswith
    | IsNull | In | IStartswith | Endswith | IEndswith | IExact
    | Contains | IContains | Regex | IRegex
    | OtherLookup
  {
    /** The lookups that have a range form. */
    predicate IsRangeLookup() {
      this in {Lt, Lte, Gt, Gte, Eq, Exact, Startswith}
    }
  }

  /** A compound's connective: COMPOUND_OP_AND (1), COMPOUND_OP_OR (2), or any other code. */
  datatype Connector = And | Or | OtherConnector(code: int)

  /** Which columns the store can query on: the partition key, the
      clustering columns and the secondary-indexed columns. */
  datatype Layout = Layout(partition: seq<string>, clustering: seq<string>, indexed: seq<string>)

  /** The token pseudo-column, which is always efficient. */
  const TokenColumn: string := "pk__token"

  /** The state of a RangePredicate: a column and an interval whose absent
      ends impose nothing. */
  datatype Bounds = Bounds(
    column: string,
    start: Option<Value>,
    startInclusive: bool,
    end: Option<Value>,
    endInclusive: bool)

  /** `RangePredicate(column)`: no bounds, both ends inclusive. */
  function Unbounded(column: string): Bounds {
    Bounds(column, None, true, None, true)
  }

  predicate IsExact(b: Bounds) {
    b.start.Some? && b.start == b.end && b.startInclusive && b.endInclusive
  }

  predicate AboveStart(b: Bounds, x: Value) {
    b.start.None? ||
    (if b.startInclusive then LessEq(b.start.value, x) else Less(b.start.value, x))
  }

  predicate BelowEnd(b: Bounds, x: Value) {
    b.end.None? ||
    (if b.endInclusive then LessEq(x, b.end.value) else Less(x, b.end.value))
  }

  /** `_matches_value`: None never matches; otherwise the value must pass
      both recorded ends. */
  function MatchesValue(b: Bounds, x: Option<Value>): (r: bool)
    ensures r <==> x.Some? && AboveStart(b, x.value) && BelowEnd(b, x.value)
  {
    if x.None? then false
    else
      var v := x.value;
      if b.start.Some? && b.startInclusive && Less(v, b.start.value) then
        LessTrichotomy(v, b.start.value);
        false
      else if b.start.Some? && !b.startInclusive && LessEq(v, b.start.value) then
        LessTrichotomy(v, b.start.value);
        false
      else if b.end.Some? && b.endInclusive && Less(b.end.value, v) then
        LessTrichotomy(v, b.end.value);
        false
      else if b.end.Some? && !b.endInclusive && LessEq(b.end.value, v) then
        LessTrichotomy(v, b.end.value);
        false
      else
        (if b.start.Some? then LessTrichotomy(v, b.start.value); true else true) &&
        (if b.end.Some? then LessTrichotomy(v, b.end.value); true else true)
  }

  /** `row_matches`: the test applied to `row.get(column)`. */
  function RowMatchesRange(b: Bounds, row: Row): (r: bool)
    ensures r ==> b.column in row && row[b.column].Some?
    ensures r <==> MatchesValue(b, Get(row, b.column))
  {
    MatchesValue(b, Get(row, b.column))
  }

  /** `can_evaluate_efficiently` of a range predicate. */
  function RangeEfficient(b: Bounds, layout: Layout): (r: bool)
    ensures r <==>
      b.column == TokenColumn || b.column in layout.clustering ||
      (IsExact(b) && (b.column in layout.partition || b.column in layout.indexed))
  {
    if IsExact(b) then
      b.column in [TokenColumn] + layout.partition + layout.clustering + layout.indexed
    else
      b.column in [TokenColumn] + layout.clustering
  }

  /** What a range lookup demands of a value; `startswith` means "is a
      string with that prefix". */
  predicate LookupHolds(op: Lookup, v: Value, x: Option<Value>)
    requires op.IsRangeLookup()
  {
    x.Some? &&
    match op
    case Gt => Less(v, x.value)
    case Gte => LessEq(v, x.value)
    case Lt => Less(x.value, v)
    case Lte => LessEq(x.value, v)
    case Startswith => v.Str? && x.value.Str? && HasPrefix(x.value.s, v.s)
    case _ => x.value == v
  }

  /** `value[:-1] + chr(ord(value[-1]) + 1)`, with the errors Python raises. */
  function StartswithEnd(v: Value): (r: Result<Value, Error>)
    ensures r.Success? <==> v.Str? && HasSuccessor(v.s)
    ensures r.Success? ==> r.value == Str(Successor(v.s))
  {
    match v
    case Int(_) => Failure(TypeError)
    case Str(s) =>
      if s == [] then Failure(IndexError)
      else if (s[|s| - 1] as int) >= 127 then Failure(ValueError)
      else Success(Str(Successor(s)))
  }

  /** The outcome of `incorporate_range_op`. */
  datatype Fold = Incorporated(bounds: Bounds) | NotIncorporated | Raised(error: Error)

  /** The AND branch: each lookup may only tighten its end of the interval. */
  function IncorporateAnd(b: Bounds, op: Lookup, v: Value): (r: Fold)
    ensures op in {Exact, Eq} ==> (r.Incorporated? <==> MatchesValue(b, Some(v)))
    ensures op in {Exact, Eq} && r.Incorporated? ==> IsExact(r.bounds) && r.bounds.start == Some(v)
    ensures r.Raised? <==> !op.IsRangeLookup() || (op == Startswith && StartswithEnd(v).Failure?)
  {
    match op
    case Gt =>
      if b.start.None? || LessEq(b.start.value, v) then
        Incorporated(b.(start := Some(v), startInclusive := false))
      else NotIncorporated
    case Gte =>
      if b.start.None? || Less(b.start.value, v) then
        Incorporated(b.(start := Some(v), startInclusive := true))
      else NotIncorporated
    case Lt =>
      if b.end.None? || LessEq(v, b.end.value) then
        Incorporated(b.(end := Some(v), endInclusive := false))
      else NotIncorporated
    case Lte =>
      if b.end.None? || Less(v, b.end.value) then
        Incorporated(b.(end := Some(v), endInclusive := true))
      else NotIncorporated
    case Exact | Eq =>
      if MatchesValue(b, Some(v)) then
        Incorporated(b.(start := Some(v), end := Some(v), startInclusive := true, endInclusive := true))
      else NotIncorporated
    case Startswith =>
      (match StartswithEnd(v)
      case Failure(e) => Raised(e)
      case Success(endValue) =>
        if (b.start.None? || Less(b.start.value, v)) &&
           (b.end.None? || LessEq(endValue, b.end.value))
        then
          Incorporated(b.(start := Some(v), end := Some(endValue), startInclusive := true, endInclusive := false))
        else NotIncorporated)
    case _ => Raised(InvalidPredicateOp)
  }

  /** The OR branch exactly as the source writes it: each lookup may move its
      own end outwards, and sets it when it was absent. */
  function IncorporateOrAsWritten(b: Bounds, op: Lookup, v: Value): Fold {
    match op
    case Gt =>
      if b.start.None? || Less(v, b.start.value) then
        Incorporated(b.(start := Some(v), startInclusive := false))
      else NotIncorporated
    case Gte =>
      if b.start.None? || LessEq(v, b.start.value) then
        Incorporated(b.(start := Some(v), startInclusive := true))
      else NotIncorporated
    case Lt =>
      if b.end.None? || Less(b.end.value, v) then
        Incorporated(b.(end := Some(v), endInclusive := false))
      else NotIncorporated
    case Lte =>
      if b.end.None? || LessEq(b.end.value, v) then
        Incorporated(b.(end := Some(v), endInclusive := true))
      else NotIncorporated
    case Exact | Eq =>
      if MatchesValue(b, Some(v)) then Incorporated(b) else NotIncorporated
    case Startswith =>
      (match StartswithEnd(v)
      case Failure(e) => Raised(e)
      case Success(endValue) =>
        if (b.start.None? || LessEq(v, b.start.value)) &&
           (b.end.None? || Less(b.end.value, endValue))
        then
          Incorporated(b.(start := Some(v), end := Some(endValue), startInclusive := true, endInclusive := false))
        else NotIncorporated)
    case _ => NotIncorporated
  }

  /** When moving one end of the interval turns it into exactly the union of
      the old interval and the lookup's set: a lower end can absorb `gt`/`gte`
      only while there is no upper end, and symmetrically; `startswith`
      replaces both ends, so it can only cover an interval bounded on both
      sides. */
  predicate UnionIsInterval(b: Bounds, op: Lookup) {
    match op
    case Gt | Gte => b.start.Some? && b.end.None?
    case Lt | Lte => b.end.Some? && b.start.None?
    case Startswith => b.start.Some? && b.end.Some?
    case _ => true
  }

  /** The OR branch, corrected: the source's guard plus UnionIsInterval. */
  function IncorporateOr(b: Bounds, op: Lookup, v: Value): (r: Fold)
    ensures r.Incorporated? ==> IncorporateOrAsWritten(b, op, v) == r
    ensures r.Raised? <==> op == Startswith && StartswithEnd(v).Failure?
    ensures op in {Exact, Eq} ==> (r.Incorporated? <==> MatchesValue(b, Some(v)))
    ensures op in {Exact, Eq} && r.Incorporated? ==> r.bounds == b
  {
    var f := IncorporateOrAsWritten(b, op, v);
    if f.Incorporated? && !UnionIsInterval(b, op) then NotIncorporated else f
  }

  /** Why the fold raises, when it does: an unknown connective or, under AND,
      an unknown lookup (InvalidPredicateOpException), or a `startswith`
      operand whose range end cannot be built. */
  predicate FoldRaises(b: Bounds, column: string, op: Lookup, v: Value, parent: Connector) {
    column == b.column &&
    (parent.OtherConnector? ||
     (parent == And && !op.IsRangeLookup()) ||
     (op == Startswith && (parent == And || parent == Or) && StartswithEnd(v).Failure?))
  }

  /** `incorporate_range_op`. */
  function Incorporate(b: Bounds, column: string, op: Lookup, v: Value, parent: Connector): (r: Fold)
    ensures column != b.column ==> r == NotIncorporated
    ensures r.Incorporated? ==> r.bounds.column == b.column && op.IsRangeLookup()
    ensures r.Raised? <==> FoldRaises(b, column, op, v, parent)
    ensures r.Raised? && (parent.OtherConnector? || !op.IsRangeLookup()) ==> r.error == InvalidPredicateOp
  {
    if column != b.column then NotIncorporated
    else
      match parent
      case And => IncorporateAnd(b, op, v)
      case Or => IncorporateOr(b, op, v)
      case OtherConnector(_) => Raised(InvalidPredicateOp)
  }

  // ---------------------------------------------------------------------------
  // What a fold means

  lemma LeLt(a: Value, b: Value, c: Value)
    requires LessEq(a, b) && Less(b, c)
    ensures Less(a, c)
  {
    if a != b {
      LessTransitive(a, b, c);
    }
  }

  lemma LtLe(a: Value, b: Value, c: Value)
    requires Less(a, b) && LessEq(b, c)
    ensures Less(a, c)
  {
    if b != c {
      LessTransitive(a, b, c);
    }
  }

  /** A value is above the old start whenever it is above a new start that
      the AND guard accepted. */
  lemma RaisedStartImplies(b: Bounds, v: Value, inclusive: bool, x: Value)
    requires b.start.None? || (if inclusive then Less(b.start.value, v) else LessEq(b.start.value, v))
    requires if inclusive then LessEq(v, x) else Less(v, x)
    ensures AboveStart(b, x)
  {
    if b.start.Some? {
      var s := b.start.value;
      if inclusive { LtLe(s, v, x); } else { LeLt(s, v, x); }
    }
  }

  lemma LoweredEndImplies(b: Bounds, v: Value, inclusive: bool, x: Value)
    requires b.end.None? || (if inclusive then Less(v, b.end.value) else LessEq(v, b.end.value))
    requires if inclusive then LessEq(x, v) else Less(x, v)
    ensures BelowEnd(b, x)
  {
    if b.end.Some? {
      var e := b.end.value;
      if inclusive { LeLt(x, v, e); } else { LtLe(x, v, e); }
    }
  }

  /** Under AND a successful fold leaves exactly the values that the old
      interval and the lookup both accept. */
  lemma {:induction false} AndFoldIsIntersection(b: Bounds, op: Lookup, v: Value, x: Option<Value>)
    requires IncorporateAnd(b, op, v).Incorporated?
    ensures op.IsRangeLookup()
    ensures MatchesValue(IncorporateAnd(b, op, v).bounds, x) <==> MatchesValue(b, x) && LookupHolds(op, v, x)
  {
    var nb := IncorporateAnd(b, op, v).bounds;
    if x.Some? {
      var y := x.value;
      match op
      case Gt =>
        if Less(v, y) { RaisedStartImplies(b, v, false, y); }
      case Gte =>
        if LessEq(v, y) { RaisedStartImplies(b, v, true, y); }
      case Lt =>
        if Less(y, v) { LoweredEndImplies(b, v, false, y); }
      case Lte =>
        if LessEq(y, v) { LoweredEndImplies(b, v, true, y); }
      case Exact =>
        LessIrreflexive(y);
      case Eq =>
        LessIrreflexive(y);
      case Startswith =>
        StartswithRange(v.s, y);
        var ev := Str(Successor(v.s));
        if LessEq(v, y) && Less(y, ev) {
          RaisedStartImplies(b, v, true, y);
          LoweredEndImplies(b, ev, false, y);
        }
      case _ =>
    }
  }

  /** Under AND a declined comparison was already implied by the interval; a
      declined equality could match nothing in it. */
  lemma {:induction false} AndDeclineIsRedundant(b: Bounds, op: Lookup, v: Value, x: Option<Value>)
    requires op in {Gt, Gte, Lt, Lte, Exact, Eq}
    requires IncorporateAnd(b, op, v) == NotIncorporated
    ensures op in {Gt, Gte, Lt, Lte} ==> (MatchesValue(b, x) ==> LookupHolds(op, v, x))
    ensures op in {Exact, Eq} ==> !(MatchesValue(b, x) && LookupHolds(op, v, x))
  {
    if x.Some? && MatchesValue(b, x) {
      var y := x.value;
      match op
      case Gt =>
        var s := b.start.value;
        LessTrichotomy(s, v);
        LtLe(v, s, y);
      case Gte =>
        var s := b.start.value;
        LessTrichotomy(s, v);
        LessEqTransitive(v, s, y);
      case Lt =>
        var e := b.end.value;
        LessTrichotomy(e, v);
        LeLt(y, e, v);
      case Lte =>
        var e := b.end.value;
        LessTrichotomy(e, v);
        LessEqTransitive(y, e, v);
      case _ =>
    }
  }

  /** A declined AND `startswith` is neither implied by the interval nor
      disjoint from it: `c >= "ab"` declines `startswith "a"` (the new start
      would not rise), yet "ab" satisfies both and "b" only the interval. */
  lemma AndDeclinedStartswithOverlaps()
    ensures var b := Bounds("c", Some(Str("ab")), true, None, true);
            && IncorporateAnd(b, Startswith, Str("a")) == NotIncorporated
            && MatchesValue(b, Some(Str("ab"))) && LookupHolds(Startswith, Str("a"), Some(Str("ab")))
            && MatchesValue(b, Some(Str("b"))) && !LookupHolds(Startswith, Str("a"), Some(Str("b")))
  {
    assert StrLess("a", "ab") && !StrLess("ab", "a") && StrLess("ab", "b");
    assert HasPrefix("ab", "a") && !HasPrefix("b", "a");
  }

  /** Under OR a successful fold leaves exactly the values that the old
      interval or the lookup accepts. */
  lemma {:induction false} OrFoldIsUnion(b: Bounds, op: Lookup, v: Value, x: Option<Value>)
    requires IncorporateOr(b, op, v).Incorporated?
    ensures op.IsRangeLookup()
    ensures MatchesValue(IncorporateOr(b, op, v).bounds, x) <==> MatchesValue(b, x) || LookupHolds(op, v, x)
  {
    if x.Some? {
      var y := x.value;
      match op
      case Gt =>
        var s := b.start.value;
        if AboveStart(b, y) {
          if b.startInclusive { LtLe(v, s, y); } else { LessTransitive(v, s, y); }
        }
      case Gte =>
        var s := b.start.value;
        if AboveStart(b, y) {
          if b.startInclusive { LessEqTransitive(v, s, y); } else { LeLt(v, s, y); }
        }
      case Lt =>
        var e := b.end.value;
        if BelowEnd(b, y) {
          if b.endInclusive { LeLt(y, e, v); } else { LessTransitive(y, e, v); }
        }
      case Lte =>
        var e := b.end.value;
        if BelowEnd(b, y) {
          if b.endInclusive { LessEqTransitive(y, e, v); } else { LtLe(y, e, v); }
        }
      case Startswith =>
        StartswithRange(v.s, y);
        var s, e, ev := b.start.value, b.end.value, Str(Successor(v.s));
        if MatchesValue(b, x) {
          if b.startInclusive { LessEqTransitive(v, s, y); } else { LeLt(v, s, y); }
          if b.endInclusive { LeLt(y, e, ev); } else { LessTransitive(y, e, ev); }
        }
      case _ =>
    }
  }

  /** A fresh `RangePredicate(column)` folds every range lookup under AND
      (the `assert incorporated` in `add_filter` cannot fail) unless the
      `startswith` operand is unusable, and then accepts exactly what the
      lookup accepts. */
  lemma FreshFoldAccepts(column: string, op: Lookup, v: Value, x: Option<Value>)
    requires op.IsRangeLookup()
    ensures var f := Incorporate(Unbounded(column), column, op, v, And);
      if op == Startswith && StartswithEnd(v).Failure? then f.Raised? else f.Incorporated?
    ensures var f := Incorporate(Unbounded(column), column, op, v, And);
      f.Incorporated? ==> (MatchesValue(f.bounds, x) <==> LookupHolds(op, v, x))
  {
    var f := Incorporate(Unbounded(column), column, op, v, And);
    if f.Incorporated? {
      AndFoldIsIntersection(Unbounded(column), op, v, x);
    }
  }

  /** The source's OR branch loses rows: `c > 3 OR c <= 10` folds into the
      interval (3, 10], which rejects c = 20; and `c <= 5 OR c > 10` folds
      into (10, 5], which rejects c = 3. The corrected branch declines both. */
  lemma OrFoldAsWrittenLosesRows()
    ensures var b := Bounds("c", Some(Int(3)), false, None, true);
      && Incorporate(Unbounded("c"), "c", Gt, Int(3), And) == Incorporated(b)
      && IncorporateOrAsWritten(b, Lte, Int(10)).Incorporated?
      && MatchesValue(b, Some(Int(20)))
      && !MatchesValue(IncorporateOrAsWritten(b, Lte, Int(10)).bounds, Some(Int(20)))
      && IncorporateOr(b, Lte, Int(10)) == NotIncorporated
    ensures var b := Bounds("c", None, true, Some(Int(5)), true);
      && IncorporateOrAsWritten(b, Gt, Int(10)).Incorporated?
      && MatchesValue(b, Some(Int(3)))
      && !MatchesValue(IncorporateOrAsWritten(b, Gt, Int(10)).bounds, Some(Int(3)))
      && IncorporateOr(b, Gt, Int(10)) == NotIncorporated
  {
  }

  // ---------------------------------------------------------------------------
  // The RangePredicate object

  /** `incorporate_range_op`'s return value: True, False or the exception. */
  function FoldOutcome(f: Fold): Result<bool, Error> {
    match f
    case Incorporated(_) => Success(true)
    case NotIncorporated => Success(false)
    case Raised(e) => Failure(e)
  }

  /** The predicate's state after a fold: only a successful fold changes it. */
  function FoldedBounds(b: Bounds, f: Fold): Bounds {
    if f.Incorporated? then f.bounds else b
  }

  class RangePredicate {
    var column: string
    var start: Option<Value>
    var startInclusive: bool
    var end: Option<Value>
    var endInclusive: bool

    function AsBounds(): Bounds
      reads this
    {
      Bounds(column, start, startInclusive, end, endInclusive)
    }

    constructor (column: string, start: Option<Value>, startInclusive: bool, end: Option<Value>, endInclusive: bool)
      ensures AsBounds() == Bounds(column, start, startInclusive, end, endInclusive)
    {
      this.column := column;
      this.start := start;
      this.startInclusive := startInclusive;
      this.end := end;
      this.endInclusive := endInclusive;
    }

    /** Folds one lookup into the interval in place; the OR branch carries
        the UnionIsInterval guard. */
    method IncorporateRangeOp(column: string, op: Lookup, value: Value, parent: Connector)
      returns (r: Result<bool, Error>)
      modifies this
      ensures r == FoldOutcome(Incorporate(old(AsBounds()), column, op, value, parent))
      ensures AsBounds() == FoldedBounds(old(AsBounds()), Incorporate(old(AsBounds()), column, op, value, parent))
    {
      if column != this.column {
        return Success(false);
      }
      ghost var b := AsBounds();
      if parent == And {
        assert Incorporate(b, column, op, value, parent) == IncorporateAnd(b, op, value);
        if op == Gt {
          if start.None? || LessEq(start.value, value) {
            start, startInclusive := Some(value), false;
            return Success(true);
          }
        } else if op == Gte {
          if start.None? || Less(start.value, value) {
            start, startInclusive := Some(value), true;
            return Success(true);
          }
        } else if op == Lt {
          if end.None? || LessEq(value, end.value) {
            end, endInclusive := Some(value), false;
            return Success(true);
          }
        } else if op == Lte {
          if end.None? || Less(value, end.value) {
            end, endInclusive := Some(value), true;
            return Success(true);
          }
        } else if op == Exact || op == Eq {
          if MatchesValue(AsBounds(), Some(value)) {
            start, end := Some(value), Some(value);
            startInclusive, endInclusive := true, true;
            return Success(true);
          }
        } else if op == Startswith {
          var endValue := StartswithEnd(value);
          if endValue.Failure? {
            return Failure(endValue.error);
          }
          if (start.None? || Less(start.value, value)) &&
             (end.None? || LessEq(endValue.value, end.value))
          {
            start, end := Some(value), Some(endValue.value);
            startInclusive, endInclusive := true, false;
            return Success(true);
          }
        } else {
          return Failure(InvalidPredicateOp);
        }
      } else if parent == Or {
        assert Incorporate(b, column, op, value, parent) == IncorporateOr(b, op, value);
        var widens := UnionIsInterval(AsBounds(), op);
        if op == Gt {
          if (start.None? || Less(value, start.value)) && widens {
            start, startInclusive := Some(value), false;
            return Success(true);
          }
        } else if op == Gte {
          if (start.None? || LessEq(value, start.value)) && widens {
            start, startInclusive := Some(value), true;
            return Success(true);
          }
        } else if op == Lt {
          if (end.None? || Less(end.value, value)) && widens {
            end, endInclusive := Some(value), false;
            return Success(true);
          }
        } else if op == Lte {
          if (end.None? || LessEq(end.value, value)) && widens {
            end, endInclusive := Some(value), true;
            return Success(true);
          }
        } else if op == Exact || op == Eq {
          if MatchesValue(AsBounds(), Some(value)) {
            return Success(true);
          }
        } else if op == Startswith {
          var endValue := StartswithEnd(value);
          if endValue.Failure? {
            return Failure(endValue.error);
          }
          if (start.None? || LessEq(value, start.value)) &&
             (end.None? || Less(end.value, endValue.value)) && widens
          {
            start, end := Some(value), Some(endValue.value);
            startInclusive, endInclusive := true, false;
            return Success(true);
          }
        }
      } else {
        return Failure(InvalidPredicateOp);
      }
      return Success(false);
    }
  }
}
