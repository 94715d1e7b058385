/** `CassandraQuery`: the column maps built from the model's fields, the CQL
    clause builders, the memoized query and the `order_by` parser. Running
    a statement against the cluster is a function parameter. */
module Compiler {
  import opened Wrappers
  import opened Errors
  import opened Values
  import opened ModelFields

  // ---------------------------------------------------------------------------
  // Text helpers

  /** `sep.join(parts)`. */
  function Join(sep: string, parts: seq<string>): (r: string)
    ensures parts == [] ==> r == ""
    ensures |parts| == 1 ==> r == parts[0]
    decreases |parts|
  {
    if parts == [] then ""
    else if |parts| == 1 then parts[0]
    else parts[0] + sep + Join(sep, parts[1..])
  }

  lemma JoinPair(sep: string, a: string, b: string)
    ensures Join(sep, [a, b]) == a + sep + b
  {
    assert [a, b][1..] == [b];
  }

  function DigitChar(d: nat): char
    requires d < 10
  {
    ('0' as int + d) as char
  }

  predicate IsDigit(c: char) {
    '0' <= c <= '9'
  }

  /** `'%s' % (n,)` for a non-negative integer: its decimal digits. */
  function Decimal(n: nat): (r: string)
    ensures r != []
    ensures forall i :: 0 <= i < |r| ==> IsDigit(r[i])
    decreases n
  {
    if n < 10 then [DigitChar(n)] else Decimal(n / 10) + [DigitChar(n % 10)]
  }

  /** The number a string of decimal digits denotes. */
  function ParseDecimal(s: string): nat
    requires forall i :: 0 <= i < |s| ==> IsDigit(s[i])
    decreases |s|
  {
    if s == [] then 0
    else
      assert IsDigit(s[|s| - 1]);
      ParseDecimal(s[..|s| - 1]) * 10 + (s[|s| - 1] as int - '0' as int)
  }

  /** The decimal text of a mark denotes that mark. */
  lemma {:induction false} DecimalRoundTrip(n: nat)
    ensures ParseDecimal(Decimal(n)) == n
    decreases n
  {
    var d := Decimal(n);
    if n >= 10 {
      DecimalRoundTrip(n / 10);
      assert d[..|d| - 1] == Decimal(n / 10);
    }
  }

  lemma DecimalInjective(m: nat, n: nat)
    requires Decimal(m) == Decimal(n)
    ensures m == n
  {
    DecimalRoundTrip(m);
    DecimalRoundTrip(n);
  }

  /** `d.get(key, default)` on a dictionary of strings. */
  function MapGet(m: map<string, string>, key: string, default: string): string {
    if key in m then m[key] else default
  }

  // ---------------------------------------------------------------------------
  // Column maps built by `__init__`

  /** `indexed_columns`: the column of every `db_index` field, in field order. */
  function IndexedColumns(fields: seq<Field>): seq<string>
    decreases |fields|
  {
    if fields == [] then []
    else
      var last := fields[|fields| - 1];
      IndexedColumns(fields[..|fields| - 1]) + (if last.dbIndex then [ColumnName(last)] else [])
  }

  /** `field_name_to_column_name`: a later field with the same name wins. */
  function ColumnMap(fields: seq<Field>): map<string, string>
    decreases |fields|
  {
    if fields == [] then map[]
    else
      var last := fields[|fields| - 1];
      ColumnMap(fields[..|fields| - 1])[last.name := ColumnName(last)]
  }

  /** A column is listed as indexed exactly when some `db_index` field maps
      to it. */
  lemma {:induction false} IndexedColumnsMembers(fields: seq<Field>, c: string)
    ensures c in IndexedColumns(fields)
        <==> exists i :: 0 <= i < |fields| && fields[i].dbIndex && ColumnName(fields[i]) == c
    decreases |fields|
  {
    if fields != [] {
      var init, last := fields[..|fields| - 1], fields[|fields| - 1];
      IndexedColumnsMembers(init, c);
      assert IndexedColumns(fields) == IndexedColumns(init) + (if last.dbIndex then [ColumnName(last)] else []);
      if c in IndexedColumns(init) {
        var i :| 0 <= i < |init| && init[i].dbIndex && ColumnName(init[i]) == c;
        assert fields[i] == init[i];
      }
      if exists i :: 0 <= i < |fields| && fields[i].dbIndex && ColumnName(fields[i]) == c {
        var i :| 0 <= i < |fields| && fields[i].dbIndex && ColumnName(fields[i]) == c;
        if i < |init| {
          assert init[i] == fields[i];
        }
      }
    }
  }

  /** Every field name is mapped, and to the column of the last field with
      that name. */
  lemma {:induction false} ColumnMapLookup(fields: seq<Field>, i: nat)
    requires i < |fields|
    requires forall j :: i < j < |fields| ==> fields[j].name != fields[i].name
    ensures fields[i].name in ColumnMap(fields)
    ensures ColumnMap(fields)[fields[i].name] == ColumnName(fields[i])
    decreases |fields|
  {
    var init := fields[..|fields| - 1];
    if i < |init| {
      assert init[i] == fields[i];
      ColumnMapLookup(init, i);
    }
  }

  /** Only the names of the fields are mapped. */
  lemma {:induction false} ColumnMapKeys(fields: seq<Field>, n: string)
    ensures n in ColumnMap(fields) <==> exists i :: 0 <= i < |fields| && fields[i].name == n
    decreases |fields|
  {
    if fields != [] {
      var init := fields[..|fields| - 1];
      ColumnMapKeys(init, n);
      if n in ColumnMap(init) {
        var i :| 0 <= i < |init| && init[i].name == n;
        assert fields[i] == init[i];
      }
      if exists i :: 0 <= i < |fields| && fields[i].name == n {
        var i :| 0 <= i < |fields| && fields[i].name == n;
        if i < |init| {
          assert init[i] == fields[i];
        }
      }
    }
  }

  // ---------------------------------------------------------------------------
  // Clause builders

  /** An ordering as `order_by` stores it: the column and whether it is
      ascending. */
  type Ordering = seq<(string, bool)>

  /** `_build_ordering_clause`: only the first entry is used, and ascending
      is spelt `AESC`. */
  function OrderingClause(ordering: Option<Ordering>): (r: string)
    ensures r == "" <==> ordering.None? || ordering.value == []
    ensures r != "" ==> HasPrefix(r, "ORDER BY " + ordering.value[0].0 + " ")
    ensures r != "" ==> (HasSuffix(r, " AESC") <==> ordering.value[0].1)
    ensures r != "" ==> (HasSuffix(r, " DESC") <==> !ordering.value[0].1)
  {
    if ordering.Some? && ordering.value != [] then
      var entry := ordering.value[0];
      var direction := if entry.1 then "AESC" else "DESC";
      var r := "ORDER BY " + entry.0 + " " + direction;
      assert r[|r| - 5..] == " " + direction;
      assert " DESC" != " AESC" by { assert " DESC"[1] != " AESC"[1]; }
      r
    else ""
  }

  /** A mark is used only when it is truthy: present and not zero. */
  predicate Truthy(mark: Option<nat>) {
    mark.Some? && mark.value != 0
  }

  /** `TOKEN(pk) <op> TOKEN(mark)`. */
  function TokenBound(pk: string, op: string, mark: nat): string {
    "TOKEN(" + pk + ") " + op + " TOKEN(" + Decimal(mark) + ")"
  }

  /** `_build_paging_clause`: a lower token bound for a truthy low mark and
      an upper one for a truthy high mark, joined by `AND`. */
  function PagingClause(pk: string, low: Option<nat>, high: Option<nat>): (r: string)
    ensures r == "" <==> !Truthy(low) && !Truthy(high)
    ensures Truthy(low) ==> HasPrefix(r, TokenBound(pk, ">=", low.value))
    ensures Truthy(high) ==> HasSuffix(r, TokenBound(pk, "<=", high.value))
    ensures Truthy(low) && Truthy(high) ==> r == TokenBound(pk, ">=", low.value) + " AND " + TokenBound(pk, "<=", high.value)
    ensures Truthy(low) != Truthy(high) ==> r == if Truthy(low) then TokenBound(pk, ">=", low.value) else TokenBound(pk, "<=", high.value)
  {
    var lower := if Truthy(low) then [TokenBound(pk, ">=", low.value)] else [];
    var upper := if Truthy(high) then [TokenBound(pk, "<=", high.value)] else [];
    JoinPair(" AND ", TokenBound(pk, ">=", low.GetOr(0)), TokenBound(pk, "<=", high.GetOr(0)));
    Join(" AND ", lower + upper)
  }

  /** A digit string is delimited by the `)` that follows it. */
  lemma DigitsEndAtParen(x: string, d1: string, d2: string)
    requires forall i :: 0 <= i < |d1| ==> IsDigit(d1[i])
    requires forall i :: 0 <= i < |d2| ==> IsDigit(d2[i])
    requires HasPrefix(x, d1 + ")") && HasPrefix(x, d2 + ")")
    ensures d1 == d2
  {
    // At the shorter length one side reads ')' and the other a digit
    // unless the lengths agree.
    var m := if |d1| < |d2| then |d1| else |d2|;
    assert x[m] == (d1 + ")")[m] && x[m] == (d2 + ")")[m];
    assert |d1| == |d2|;
    assert d1 == (d1 + ")")[..|d1|] == x[..|d1|] == (d2 + ")")[..|d2|] == d2;
  }

  /** Different truthy low marks give different paging clauses: the mark
      can be read back from the clause. */
  lemma PagingClauseInjective(pk: string, low1: nat, low2: nat, high: Option<nat>)
    requires low1 != 0 && low2 != 0
    requires PagingClause(pk, Some(low1), high) == PagingClause(pk, Some(low2), high)
    ensures low1 == low2
  {
    var p := "TOKEN(" + pk + ") >= TOKEN(";
    var c := PagingClause(pk, Some(low1), high);
    var d1, d2 := Decimal(low1), Decimal(low2);
    var b1, b2 := TokenBound(pk, ">=", low1), TokenBound(pk, ">=", low2);
    assert b1 == p + (d1 + ")") && b2 == p + (d2 + ")");
    assert HasPrefix(c, b1) && HasPrefix(c, b2);
    var x := c[|p|..];
    assert x[..|d1| + 1] == c[..|b1|][|p|..] == d1 + ")";
    assert x[..|d2| + 1] == c[..|b2|][|p|..] == d2 + ")";
    DigitsEndAtParen(x, d1, d2);
    DecimalInjective(low1, low2);
  }

  /** `_build_columns_clause`: `*` for no fields, else the mapped column of
      each field, an unmapped name giving an empty entry. */
  function ColumnsClause(fields: seq<Field>, names: map<string, string>): (r: string)
    ensures fields == [] ==> r == "*"
    ensures |fields| == 1 ==> r == MapGet(names, fields[0].name, "")
  {
    if fields == [] then "*"
    else Join(", ", seq(|fields|, i requires 0 <= i < |fields| => MapGet(names, fields[i].name, "")))
  }

  /** For fields with distinct names, the column list of a query built from
      them names each field's own column, in field order. */
  lemma ColumnsClauseOwnFields(fields: seq<Field>)
    requires forall i, j :: 0 <= i < j < |fields| ==> fields[i].name != fields[j].name
    ensures ColumnsClause(fields, ColumnMap(fields))
         == if fields == [] then "*" else Join(", ", seq(|fields|, i requires 0 <= i < |fields| => ColumnName(fields[i])))
  {
    var m := ColumnMap(fields);
    forall i | 0 <= i < |fields|
      ensures MapGet(m, fields[i].name, "") == ColumnName(fields[i])
    {
      ColumnMapLookup(fields, i);
    }
    var got := seq(|fields|, i requires 0 <= i < |fields| => MapGet(m, fields[i].name, ""));
    var want := seq(|fields|, i requires 0 <= i < |fields| => ColumnName(fields[i]));
    assert got == want;
  }

  /** A WHERE node as the query holds it: `EverythingNode`, or a node whose
      `as_sql()` gives a statement and its parameters. */
  datatype Where = Everything | Conditions(statement: string, params: seq<string>)

  /** The where text: `statement % (params,)` when both are non-empty, else
      empty. `EverythingNode` renders as nothing. String interpolation is a
      parameter. */
  function WhereText(w: Where, interpolate: (string, seq<string>) -> string): (r: string)
    ensures w.Everything? ==> r == ""
  {
    match w
    case Everything => ""
    case Conditions(statement, params) =>
      if statement != "" && params != [] then interpolate(statement, params) else ""
  }

  /** The WHERE assembly of `_get_query_results`: the paging clause is
      ANDed onto the conditions, or stands alone; `WHERE ` is prefixed only
      to a non-empty result. */
  function WhereClause(conditions: string, paging: string): (r: string)
    ensures r == "" <==> conditions == "" && paging == ""
    ensures r != "" ==> HasPrefix(r, "WHERE ")
    ensures conditions != "" && paging != "" ==> r == "WHERE " + conditions + " AND " + paging
    ensures conditions == "" && paging != "" ==> r == "WHERE " + paging
    ensures conditions != "" && paging == "" ==> r == "WHERE " + conditions
  {
    var combined :=
      if paging == "" then conditions
      else if conditions != "" then Join(" AND ", [conditions, paging])
      else paging;
    JoinPair(" AND ", conditions, paging);
    if combined != "" then Join(" ", ["WHERE", combined]) else ""
  }

  /** `' '.join(['SELECT', columns, 'FROM', family, where, ordering])`:
      empty clauses still leave their separating spaces. */
  function SelectStatement(columns: string, family: string, where: string, ordering: string): (r: string)
    ensures HasPrefix(r, "SELECT " + columns + " FROM " + family + " ")
    ensures HasSuffix(r, " " + where + " " + ordering)
  {
    var r := "SELECT " + columns + " FROM " + family + " " + where + " " + ordering;
    assert r == ("SELECT " + columns + " FROM " + family + " ") + (where + " " + ordering);
    assert r == ("SELECT " + columns + " FROM " + family) + (" " + where + " " + ordering);
    r
  }

  // ---------------------------------------------------------------------------
  // `order_by`

  /** One entry of an `order_by` argument: a string, a `(name, ascending)`
      pair, or a tuple of strings. */
  datatype OrderItem = Text(s: string) | Pair(name: string, ascending: bool) | Tuple(items: seq<string>)

  /** The argument of `order_by`: a bare bool, or a list of entries. */
  datatype OrderByArg = Flag(b: bool) | Entries(items: seq<OrderItem>)

  const TooManyOrderings: string :=
    "ORDER BY clauses can select a single column only. That column has to be the second column in a compound PRIMARY KEY."

  /** The ordering one entry sets: a one-character string is a name, `-`
      meaning an empty name descending; a two-element entry unpacks into
      name and ascending flag (a non-empty string counts as true); a
      one-element tuple has no `startswith`; any other length is rejected
      (for a tuple the message formatting itself fails). */
  function ParseOrder(item: OrderItem, names: map<string, string>): (r: Result<(string, bool), Error>)
    ensures item.Pair? ==> r == Success((MapGet(names, item.name, item.name), item.ascending))
    ensures item.Text? && |item.s| == 1 ==> r.Success? && (r.value.1 <==> item.s != "-")
    ensures item.Text? && |item.s| == 2 ==> r.Success? && r.value.1
    ensures item.Text? && |item.s| != 1 && |item.s| != 2 ==> r.Failure? && r.error.DatabaseError?
    ensures item.Tuple? ==> (r.Success? <==> |item.items| == 2)
  {
    var parsed: Result<(string, bool), Error> :=
      match item
      case Text(s) =>
        if |s| == 1 then (if s == "-" then Success(("", false)) else Success((s, true)))
        else if |s| == 2 then Success(([s[0]], true))
        else Failure(DatabaseError("Invalid ordering specification: " + s))
      case Pair(name, ascending) => Success((name, ascending))
      case Tuple(items) =>
        if |items| == 1 then Failure(AttributeError)
        else if |items| == 2 then Success((items[0], items[1] != ""))
        else Failure(TypeError);
    match parsed
    case Failure(e) => Failure(e)
    case Success(entry) => Success((MapGet(names, entry.0, entry.0), entry.1))
  }

  /** A `(name, ascending)` entry gives `ORDER BY <column> AESC|DESC` with
      the field's column, or the name itself when it is not a field. */
  lemma OrderByPairClause(name: string, ascending: bool, names: map<string, string>)
    ensures var e := ParseOrder(Pair(name, ascending), names);
            && e.Success?
            && OrderingClause(Some([e.value]))
               == "ORDER BY " + MapGet(names, name, name) + (if ascending then " AESC" else " DESC")
  {
  }

  // ---------------------------------------------------------------------------
  // The query object

  /** The query window is empty: a high mark at or below the low mark. With
      no low mark Python 2 compares an int above `None`, so the window is
      never empty. */
  predicate EmptyWindow(low: Option<nat>, high: Option<nat>) {
    high.Some? && low.Some? && high.value <= low.value
  }

  class CassandraQuery {
    const MaxResultCount: nat := 10000
    const pkColumn: string
    const columnFamily: string
    const fields: seq<Field>
    const indexedColumns: seq<string>
    const fieldNameToColumnName: map<string, string>
    var where: Option<Where>
    var ordering: Option<Ordering>
    var cache: Option<seq<Row>>

    /** `__init__`: the column maps are built in one pass over the fields. */
    constructor (pkColumn: string, columnFamily: string, fields: seq<Field>)
      ensures this.pkColumn == pkColumn && this.columnFamily == columnFamily && this.fields == fields
      ensures indexedColumns == IndexedColumns(fields)
      ensures fieldNameToColumnName == ColumnMap(fields)
      ensures where.None? && ordering.None? && cache.None?
    {
      var indexed: seq<string> := [];
      var names: map<string, string> := map[];
      var i := 0;
      while i < |fields|
        invariant 0 <= i <= |fields|
        invariant indexed == IndexedColumns(fields[..i])
        invariant names == ColumnMap(fields[..i])
      {
        assert fields[..i + 1][..i] == fields[..i];
        var field := fields[i];
        var column := if field.dbColumn.Some? && field.dbColumn.value != "" then field.dbColumn.value else field.column;
        if field.dbIndex {
          indexed := indexed + [column];
        }
        names := names[field.name := column];
        i := i + 1;
      }
      assert fields[..i] == fields;
      this.pkColumn := pkColumn;
      this.columnFamily := columnFamily;
      this.fields := fields;
      indexedColumns := indexed;
      fieldNameToColumnName := names;
      where := None;
      ordering := None;
      cache := None;
    }

    /** The SELECT statement for a window over the given WHERE node. */
    function Statement(w: Where, low: Option<nat>, high: Option<nat>, interpolate: (string, seq<string>) -> string): string
      reads this
    {
      SelectStatement(ColumnsClause(fields, fieldNameToColumnName), columnFamily,
                      WhereClause(WhereText(w, interpolate), PagingClause(pkColumn, low, high)),
                      OrderingClause(ordering))
    }

    /** `_get_query_results`: an empty window gives `None` and touches
        nothing; otherwise the statement runs only while nothing is cached,
        and the cached rows are returned from then on. */
    method GetQueryResults(low: Option<nat>, high: Option<nat>,
                           interpolate: (string, seq<string>) -> string, execute: string -> seq<Row>)
      returns (r: Option<seq<Row>>)
      modifies this
      ensures EmptyWindow(low, high) ==> r.None? && unchanged(this)
      ensures !EmptyWindow(low, high) && old(cache).Some? ==> r == old(cache) && unchanged(this)
      ensures !EmptyWindow(low, high) && old(cache).None? ==>
                && where == Some(old(where).GetOr(Everything))
                && ordering == old(ordering)
                && cache == Some(execute(Statement(where.value, low, high, interpolate)))
                && r == cache
    {
      if EmptyWindow(low, high) {
        return None;
      }
      if cache.None? {
        if where.None? {
          where := Some(Everything);
        }
        var orderingClause := OrderingClause(ordering);
        var pagingClause := PagingClause(pkColumn, low, high);
        var columnsClause := ColumnsClause(fields, fieldNameToColumnName);
        var whereClause := WhereClause(WhereText(where.value, interpolate), pagingClause);
        var statement := SelectStatement(columnsClause, columnFamily, whereClause, orderingClause);
        cache := Some(execute(statement));
      }
      return cache;
    }

    /** `count`: Cassandra cannot count rows, so it always raises. */
    function Count(limit: Option<nat>): (r: Result<nat, Error>)
      ensures r.Failure? && r.error.DatabaseError?
    {
      Failure(DatabaseError("Cassandra does not support counting rows. Create a counter column family and query that instead."))
    }

    /** `order_by`: a bool is ignored; more than one entry is refused before
        anything changes; otherwise the ordering is cleared and then set to
        the one parsed entry, and stays cleared if parsing raises. */
    method OrderBy(arg: OrderByArg) returns (r: Result<(), Error>)
      modifies this
      ensures where == old(where) && cache == old(cache)
      ensures arg.Flag? ==> r.Success? && ordering == old(ordering)
      ensures arg.Entries? && |arg.items| > 1 ==> r == Failure(DatabaseError(TooManyOrderings)) && ordering == old(ordering)
      ensures arg.Entries? && arg.items == [] ==> r == Failure(IndexError) && ordering == Some([])
      ensures arg.Entries? && |arg.items| == 1 ==>
                match ParseOrder(arg.items[0], fieldNameToColumnName)
                case Success(entry) => r.Success? && ordering == Some([entry])
                case Failure(e) => r == Failure(e) && ordering == Some([])
    {
      if arg.Flag? {
        return Success(());
      }
      if |arg.items| > 1 {
        return Failure(DatabaseError(TooManyOrderings));
      }
      ordering := Some([]);
      if arg.items == [] {
        return Failure(IndexError);
      }
      var parsed := ParseOrder(arg.items[0], fieldNameToColumnName);
      if parsed.Failure? {
        return Failure(parsed.error);
      }
      ordering := Some([parsed.value]);
      return Success(());
    }
  }
}
