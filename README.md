# djangocassandra query engine, modelled in Dafny

This project models the part of the djangocassandra Django backend that
plans and evaluates queries over Cassandra:

- **The predicate tree.**
  - A `RangePredicate` holds an interval on one column. `incorporate_range_op` tightens it under AND and widens it under OR.
  - An `OperationPredicate` is a membership or string test evaluated row by row.
  - A `CompoundPredicate` is a possibly negated AND/OR node.
  - Each node says whether the store can serve it for a key layout (partition, clustering and indexed columns), and whether it matches a row. A row is a map from column to an optional value.
- **`add_filter`.** It builds the tree, folding a range lookup into the first child that absorbs it.
- **`get_matching_rows`.** It works in four steps:
  1. It splits the children into a servable and a fallback list.
  2. It refuses or warns about inefficient queries.
  3. It filters the fetched rows by the fallback list.
  4. It sorts them by each inefficient ordering entry and slices them.
- **The row sorter.** This is `_compare_rows`, a multi-column Python 2 `cmp`, and `sort_rows`, an in-place stable sort.
- **`CassandraQuery`.** This covers:
  - the column maps built from the model's fields;
  - the CQL clause builders (ORDER BY, TOKEN paging, column list, WHERE and SELECT assembly);
  - the memoized query result;
  - the `order_by` parser and `count`.
- **`CassandraCursor`.** A row buffer with a read index, and the DB-API style `fetchone`, `fetchmany` and `fetchall`.

## How the model is built

Values are Python 2 values:
- integers, ordered below every string;
- strings, ordered by code point;
- `None`, ordered below everything.

Errors the source raises are `Failure` results of an `Error` datatype.

Predicate nodes inside a tree are datatype values (`Pred`). `RangePredicate`, `CompoundPredicate`, `CassandraQuery` and `CassandraCursor` are classes whose methods update their fields in place. Each such method is proved against a function on values, and that function carries the lemmas. Where the Findings below correct the source, these methods follow the corrected functions, not the code as written. That applies to `RangePredicate.incorporate_range_op` (the OR fold), `CompoundPredicate.add_filter` (through the OR fold) and `CompoundPredicate.get_matching_rows` (the key layout, the OR-root filter and the per-entry sorts). The as-written behaviour is kept beside each correction as its own member.

Several things are parameters instead of definitions:
- what is run on the cluster (`fetch`, `execute`, `run`);
- regular-expression matching (`rx`) and compiling (`compiles`);
- Python's `%` string interpolation of a WHERE node.

The modules follow the source files:

| Dafny file | source |
|---|---|
| `values.dfy` | the Python 2 value order and string helpers the lookups use |
| `ranges.dfy` | `RangePredicate` (predicate.py) |
| `predicates.dfy` | `OperationPredicate`, compound evaluation and `add_filter` as functions (predicate.py) |
| `rowsort.dfy` | utils.py |
| `matching.dfy` | `get_matching_rows` as a function (predicate.py) |
| `compound.dfy` | the `CompoundPredicate` object and its loops (predicate.py) |
| `compiler.dfy` | `CassandraQuery` (compiler.py) |
| `cursor.dfy` | `CassandraCursor` (cursor.py) |

Where the design description and the code disagree, the model follows the code:
- **Token column.** Efficiency also accepts the `pk__token` column, for exact and range predicates alike.
- **No prefix rule.** Children are classified one by one. There is no clustering-prefix rule, no ordering of the pushed-down predicates, and no short-circuit for an empty interval.
- **`order_by`.** `CassandraQuery.order_by` accepts one ordering entry only and raises `DatabaseError` for more. It does no per-column pushdown analysis.
- **Ascending clause.** The ordering clause spells ascending as `AESC`.

## Model

| member | source | states |
|---|---|---|
| Values.Cmp | djangocassandra/db/backends/cassandra/utils.py:14 | Python 2 `cmp` on optional values is -1, 0 or 1, and 0 exactly on equal values (`None` lowest, ints below strings) |
| Values.CmpAntisymmetric | djangocassandra/db/backends/cassandra/utils.py:14 | `cmp(a, b) == -cmp(b, a)` |
| Values.CmpTransitive | djangocassandra/db/backends/cassandra/utils.py:14 | `cmp` is transitive, so it is a total order |
| Values.PrefixRange | djangocassandra/db/backends/cassandra/predicate.py:153-160 | a string starts with `v` iff it lies in `[v, v[:-1]+chr(ord(v[-1])+1))` |
| Values.StartswithRange | djangocassandra/db/backends/cassandra/predicate.py:153-160 | the same on values: no int lies in a string `startswith` range |
| RangePredicates.MatchesValue | djangocassandra/db/backends/cassandra/predicate.py:206-222 | `None` never matches; otherwise the value must be above the start (strictly if exclusive) and below the end; a missing bound imposes nothing |
| RangePredicates.RowMatchesRange | djangocassandra/db/backends/cassandra/predicate.py:224-226 | a row matches iff its value for the column matches, so a missing or null column never matches |
| RangePredicates.RangeEfficient | djangocassandra/db/backends/cassandra/predicate.py:95-113 | an exact interval is servable iff its column is `pk__token`, partition, clustering or indexed; a true range iff it is `pk__token` or clustering |
| RangePredicates.StartswithEnd | djangocassandra/db/backends/cassandra/predicate.py:153-160 | the end of a `startswith` range exists exactly for a non-empty string whose last character can be incremented, and is that successor |
| RangePredicates.IncorporateAnd | djangocassandra/db/backends/cassandra/predicate.py:121-162 | under AND: exact/eq folds iff the value already matches and leaves an exact interval at that value; raises iff the op is unknown or a `startswith` has no end |
| RangePredicates.AndFoldIsIntersection | djangocassandra/db/backends/cassandra/predicate.py:121-160 | a successful AND fold matches exactly the old interval intersected with the operator's set |
| RangePredicates.AndDeclineIsRedundant | djangocassandra/db/backends/cassandra/predicate.py:121-152 | a declined AND fold is one the interval already implies (gt/gte/lt/lte) or one that no row can satisfy together with it (exact/eq) |
| RangePredicates.AndDeclinedStartswithOverlaps | djangocassandra/db/backends/cassandra/predicate.py:153-162 | a declined AND `startswith` can be neither implied by the interval nor disjoint from it: `c >= "ab"` declines `startswith "a"`, yet `"ab"` satisfies both and `"b"` only the interval |
| RangePredicates.IncorporateOr | djangocassandra/db/backends/cassandra/predicate.py:163-204 | under OR: folds only where the as-written branch does and the union is itself an interval; exact/eq folds iff already matched and changes nothing; unknown ops fall through with False |
| RangePredicates.OrFoldIsUnion | djangocassandra/db/backends/cassandra/predicate.py:163-200 | a successful OR fold matches exactly the old interval united with the operator's set, so nothing matched before is lost |
| RangePredicates.Incorporate | djangocassandra/db/backends/cassandra/predicate.py:115-204 | another column gives False; a parent that is neither AND nor OR, or an unknown op under AND, raises `InvalidPredicateOpException` |
| RangePredicates.FreshFoldAccepts | djangocassandra/db/backends/cassandra/predicate.py:409-418 | a fresh unbounded range always absorbs the lookup (unless `startswith` has no end) and then matches exactly the lookup's set |
| RangePredicates.OrFoldAsWrittenLosesRows | djangocassandra/db/backends/cassandra/predicate.py:163-200 | the as-written OR branch turns `c > 3 OR c <= 10` into `(3, 10]` and `c <= 5 OR c > 10` into `(10, 5]`, both losing rows |
| RangePredicates.RangePredicate.constructor | djangocassandra/db/backends/cassandra/predicate.py:61-73 | the object holds the given column and bounds |
| RangePredicates.RangePredicate.IncorporateRangeOp | djangocassandra/db/backends/cassandra/predicate.py:115-204 | returns True, False or the exception of the fold and updates the fields to the folded interval, leaving them unchanged when nothing folds |
| Predicates.TextLookup | djangocassandra/db/backends/cassandra/predicate.py:262-275 | string lookups succeed exactly on a string row value and string operand; `iexact` compares lower-cased strings; `contains` is substring search |
| Predicates.OperationMatches | djangocassandra/db/backends/cassandra/predicate.py:253-277 | `isnull` tests for `None`; a null value or missing operand never matches; `in` on a list is membership; an unknown op raises |
| Predicates.Efficient | djangocassandra/db/backends/cassandra/predicate.py:245-251 | an operation is never servable, a negated compound never, a range by its interval |
| Predicates.EfficientMeansServable | djangocassandra/db/backends/cassandra/predicate.py:316-348 | a node is servable iff it is a servable range or an un-negated AND/OR whose children all are; well-formed trees never raise |
| Predicates.AllEfficientMeansServable | djangocassandra/db/backends/cassandra/predicate.py:325-345 | the all-children loop answers True iff every child is servable |
| Predicates.SubsetMatches | djangocassandra/db/backends/cassandra/predicate.py:350-371 | an empty AND is True and an empty OR False (flipped when negated); any other connector raises |
| Predicates.SubsetMatchesMeaning | djangocassandra/db/backends/cassandra/predicate.py:350-374 | AND holds iff every child holds, OR iff some child does, flipped when negated |
| Predicates.RowMatchesMeaning | djangocassandra/db/backends/cassandra/predicate.py:224-226 | on rows where every leaf is defined, evaluation returns exactly the tree's logical meaning |
| Predicates.AllAnyMatchMeaning | djangocassandra/db/backends/cassandra/predicate.py:356-365 | the short-circuit folds compute for-all and there-exists over the children |
| Predicates.ScanFrom | djangocassandra/db/backends/cassandra/predicate.py:399-407 | the scan stops at the first child that absorbs the lookup, or at the first that raises, and otherwise reports that none did |
| Predicates.AddedChildren | djangocassandra/db/backends/cassandra/predicate.py:379-421 | the children grow by at most one, only at the end; only a range lookup or a `regex`/`iregex` lookup can raise, the latter exactly when its operand is not a string (`TypeError`) or does not compile (`re.error`), as `OperationPredicate.__init__` compiles it (predicate.py:232-237) |
| Predicates.AddFilterMeaning | djangocassandra/db/backends/cassandra/predicate.py:379-421 | after `add_filter` an AND node means old-meaning AND filter, an OR node old-meaning OR filter |
| RowSort.CompareRows | djangocassandra/db/backends/cassandra/utils.py:4-23 | the comparator answers -1, 0 or 1 |
| RowSort.CompareRowsZero | djangocassandra/db/backends/cassandra/utils.py:9-23 | it answers 0 iff the rows agree on every listed column, a missing column reading as `None` |
| RowSort.CompareRowsFirstDifference | djangocassandra/db/backends/cassandra/utils.py:9-18 | the answer is the `cmp` of the first column where the rows differ, negated when that entry is reversed |
| RowSort.CompareRowsAntisymmetric | djangocassandra/db/backends/cassandra/utils.py:14-18 | swapping the rows negates the answer |
| RowSort.CompareRowsTransitive | djangocassandra/db/backends/cassandra/utils.py:9-23 | "not after" is transitive, so the comparator is a total preorder |
| RowSort.CompareRowsAsWritten | djangocassandra/db/backends/cassandra/utils.py:9-23 | as written, an empty ordering leaves `result` unbound and raises; any other ordering agrees with `CompareRows` |
| RowSort.EmptyOrderingRaises | djangocassandra/db/backends/cassandra/utils.py:9-23 | the as-written comparator raises on an empty ordering where the corrected one answers 0 |
| RowSort.StableSort | djangocassandra/db/backends/cassandra/utils.py:36-42 | sorting keeps the same rows, as a multiset |
| RowSort.StableSortSorted | djangocassandra/db/backends/cassandra/utils.py:36-42 | the sorted rows are non-decreasing under the comparator |
| RowSort.StableSortStable | djangocassandra/db/backends/cassandra/utils.py:36-42 | rows that compare equal keep their relative order |
| RowSort.Entries | djangocassandra/db/backends/cassandra/utils.py:9-34 | a list or tuple is the ordering itself; a bare string, once wrapped, is one entry on the column named by its first character, reversed iff it has a second character; an empty string raises `IndexError` |
| RowSort.TextOrderingSortsByFirstCharacter | djangocassandra/db/backends/cassandra/utils.py:9-18 | `sort_rows(rows, "name")` compares rows by the reversed `cmp` of their values in the column `n` |
| RowSort.SortOrdering | djangocassandra/db/backends/cassandra/utils.py:9-34 | the first comparison succeeds iff the ordering has at least one entry; an empty list or tuple raises `UnboundLocalError`, an empty string `IndexError` |
| RowSort.SortRows | djangocassandra/db/backends/cassandra/utils.py:26-42 | no ordering leaves the array untouched; otherwise the array holds the stable sort of its old contents under the ordering's entries, or, when the first comparison raises (an empty string or an empty list), stays as it was and raises iff there are two rows to compare |
| RowSort.SortTwoRowsByNothing | djangocassandra/db/backends/cassandra/utils.py:9-23 | `sort_rows([r1, r2], [])` raises `UnboundLocalError` and leaves the rows as they were |
| RowSort.CompareTupleEntryAsWritten | djangocassandra/db/backends/cassandra/utils.py:9-18 | an unwrapped `(column, flag)` entry is read character by character: it compares on a one-character column and raises on the flag |
| RowSort.BareEntryRaises | djangocassandra/db/backends/cassandra/predicate.py:524-526 | rows ordered by `("name", False)` raise as written where the wrapped entry orders them |
| Matching.QueryLayout | djangocassandra/db/backends/cassandra/predicate.py:427-442 | the primary-key column is the single partition column |
| Matching.PartitionColumnsAsWritten | djangocassandra/db/backends/cassandra/predicate.py:427-442 | as written, the partition "columns" are the key's single characters |
| Matching.PartitionAsWrittenMissesKey | djangocassandra/db/backends/cassandra/predicate.py:95-107 | as written, an exact lookup on key `id` is not servable on a table without an index |
| Matching.ExactKeyLookupIsServable | djangocassandra/db/backends/cassandra/predicate.py:95-107 | with the key as a column, an exact key lookup is always servable |
| Matching.Classify | djangocassandra/db/backends/cassandra/predicate.py:437-446 | one flag per child, each the child's servability |
| Matching.ClassifyFailsOnlyOnRaise | djangocassandra/db/backends/cassandra/predicate.py:437-446 | the split raises exactly when some child's check raises |
| Matching.SplitChildren | djangocassandra/db/backends/cassandra/predicate.py:437-446 | every child lands in exactly one list (multiset partition) |
| Matching.SplitClasses | djangocassandra/db/backends/cassandra/predicate.py:437-446 | the servable list holds only servable children and the fallback list only the others |
| Matching.KeptPartition | djangocassandra/db/backends/cassandra/predicate.py:437-446 | the two lists together are a permutation of the children |
| Matching.FilterRows | djangocassandra/db/backends/cassandra/predicate.py:516-522 | a successful filter returns exactly the rows the fallback node accepts, in order |
| Matching.FilterRowsFailsOnlyOnRaise | djangocassandra/db/backends/cassandra/predicate.py:516-522 | the filter raises exactly when the node raises on some row |
| Matching.SelectedMembers | djangocassandra/db/backends/cassandra/predicate.py:516-522 | a row is kept iff it is fetched and accepted |
| Matching.SortEach | djangocassandra/db/backends/cassandra/predicate.py:524-526 | the per-entry sorts keep the same rows |
| Matching.SortEachLastEntryDecides | djangocassandra/db/backends/cassandra/predicate.py:524-526 | the result is ordered by the last entry, and rows tied on it keep the order the earlier sorts gave |
| Matching.Islice | djangocassandra/db/backends/cassandra/predicate.py:528-530 | `islice(rows, low, high)` has length `min(high, n) - low` (at least 0) and holds the rows from `low` on |
| Matching.MatchingRowsAsWritten | djangocassandra/db/backends/cassandra/predicate.py:437-530 | the filter as written: the rows fetched for the servable children are filtered by the fallback children under the root's connector (the children are classified under the corrected `QueryLayout` and sorted by the wrapped per-entry sorts, so only the OR-root defect is kept); a warning only when inefficiency is allowed; a child that raises during the split makes the query raise |
| Matching.MatchingRows | djangocassandra/db/backends/cassandra/predicate.py:437-530 | a warning only when inefficiency is allowed; a child that raises during the split makes the query raise; under an un-negated AND root, or with no fallback child, it is exactly the as-written pipeline |
| Matching.InefficientQueryGate | djangocassandra/db/backends/cassandra/predicate.py:507-514 | the query is refused iff it needs fallback work that is not allowed, and warns iff it needs allowed fallback work; with no fallback work the fetched rows are only sliced |
| Matching.SelectedTwice | djangocassandra/db/backends/cassandra/predicate.py:516-522 | filtering by one node and then another equals filtering once by their conjunction |
| Matching.AndSplitMeaning | djangocassandra/db/backends/cassandra/predicate.py:437-446 | for an AND node, the servable half and the fallback half together mean the whole node |
| Matching.AndFallbackFilter | djangocassandra/db/backends/cassandra/predicate.py:516-522 | filtering the servable-half rows by the fallback half gives the rows the whole AND node accepts |
| Matching.AndRootReturnsMatchingRows | djangocassandra/db/backends/cassandra/predicate.py:426-532 | for an un-negated AND root and a store that answers the pushed-down children as a conjunction, the query returns the table rows the whole tree accepts, sorted by each inefficient ordering entry and cut to `[low_mark:high_mark]` |
| Matching.FallbackRootReturnsMatchingRows | djangocassandra/db/backends/cassandra/predicate.py:426-532 | for an OR or negated root with a fallback child, the corrected query reads every row and returns the table rows the whole tree accepts, sorted and sliced the same way |
| Matching.OrRootAsWrittenDropsRows | djangocassandra/db/backends/cassandra/predicate.py:516-522 | with clustering column `c`, the OR root `c = 1 OR name IS NULL` is classified alike under the source's own key layout and the corrected one, and as written drops the row `{c: 1, name: "n"}` that the tree accepts; the corrected pipeline returns it |
| CompoundPredicates.PartitionChildren | djangocassandra/db/backends/cassandra/predicate.py:437-446 | the loop builds exactly the split of the children |
| CompoundPredicates.FilterFetched | djangocassandra/db/backends/cassandra/predicate.py:516-522 | the loop computes exactly the fallback filter |
| CompoundPredicates.SortByEach | djangocassandra/db/backends/cassandra/predicate.py:524-526 | repeated `sort_rows` on one buffer gives exactly the per-entry sorts |
| CompoundPredicates.FindAbsorbingChild | djangocassandra/db/backends/cassandra/predicate.py:397-408 | the loop finds exactly the scan's first absorbing child or exception |
| CompoundPredicates.CompoundPredicate.constructor | djangocassandra/db/backends/cassandra/predicate.py:292-297 | missing children mean an empty list |
| CompoundPredicates.CompoundPredicate.AddChild | djangocassandra/db/backends/cassandra/predicate.py:423-424 | the child is appended and nothing else changes |
| CompoundPredicates.CompoundPredicate.AddFilter | djangocassandra/db/backends/cassandra/predicate.py:379-421 | the children become `AddedChildren` of the old children (column from `db_column` or `column`), and stay unchanged when a fold or the compiling of a pattern raises |
| CompoundPredicates.CompoundPredicate.GetMatchingRows | djangocassandra/db/backends/cassandra/predicate.py:426-532 | the method returns exactly the rows, exception and warning of the corrected `MatchingRows` |
| Compiler.DecimalRoundTrip | djangocassandra/db/backends/cassandra/compiler.py:77-86 | the decimal text put into `TOKEN(...)` reads back as the mark |
| Compiler.IndexedColumnsMembers | djangocassandra/db/backends/cassandra/compiler.py:41-53 | a column is listed as indexed iff some `db_index` field has it as its column |
| Compiler.ColumnMapLookup | djangocassandra/db/backends/cassandra/compiler.py:41-53 | each field name maps to the column of the last field with that name |
| Compiler.ColumnMapKeys | djangocassandra/db/backends/cassandra/compiler.py:41-53 | only field names are mapped |
| Compiler.OrderingClause | djangocassandra/db/backends/cassandra/compiler.py:55-67 | empty iff there is no ordering; otherwise `ORDER BY` the first entry's column, ending in `AESC` iff ascending and `DESC` iff not |
| Compiler.PagingClause | djangocassandra/db/backends/cassandra/compiler.py:69-89 | a `>=` token bound for a truthy low mark, a `<=` one for a truthy high mark, joined by `AND`; empty iff neither is truthy |
| Compiler.PagingClauseInjective | djangocassandra/db/backends/cassandra/compiler.py:69-89 | different truthy low marks give different clauses |
| Compiler.ColumnsClause | djangocassandra/db/backends/cassandra/compiler.py:91-103 | `*` without fields; one field gives its mapped column or an empty name |
| Compiler.ColumnsClauseOwnFields | djangocassandra/db/backends/cassandra/compiler.py:91-103 | for fields with distinct names, the list names each field's own column in order |
| Compiler.WhereText | djangocassandra/db/backends/cassandra/compiler.py:114-135 | `EverythingNode` renders as no condition |
| Compiler.WhereClause | djangocassandra/db/backends/cassandra/compiler.py:137-151 | paging is ANDed onto the conditions or stands alone; `WHERE ` appears iff the result is non-empty |
| Compiler.SelectStatement | djangocassandra/db/backends/cassandra/compiler.py:153-162 | the statement is `SELECT <columns> FROM <family> ` followed by the where and ordering clauses |
| Compiler.ParseOrder | djangocassandra/db/backends/cassandra/compiler.py:249-269 | a pair gives its mapped column and flag; a one-character string is ascending unless it is `-`; other string lengths raise `DatabaseError`; a tuple parses iff it has two elements |
| Compiler.OrderByPairClause | djangocassandra/db/backends/cassandra/compiler.py:55-67 | ordering by `(name, asc)` yields `ORDER BY <column> AESC` or `DESC` |
| Compiler.CassandraQuery.constructor | djangocassandra/db/backends/cassandra/compiler.py:23-53 | the loop builds `IndexedColumns` and `ColumnMap` of the fields; no where, ordering or cache yet |
| Compiler.CassandraQuery.GetQueryResults | djangocassandra/db/backends/cassandra/compiler.py:105-173 | an empty window gives `None` and changes nothing; a cached result is returned unchanged; otherwise the statement runs once and its rows are cached |
| Compiler.CassandraQuery.Count | djangocassandra/db/backends/cassandra/compiler.py:188-201 | always raises `DatabaseError` |
| Compiler.CassandraQuery.OrderBy | djangocassandra/db/backends/cassandra/compiler.py:232-271 | a bool is ignored; several entries raise before anything changes; otherwise the ordering is cleared and then set to the parsed entry |
| Cursor.PySlice | djangocassandra/db/backends/cassandra/cursor.py:69 | a non-negative slice holds the rows from its start, clipped to the end |
| Cursor.PyIndex | djangocassandra/db/backends/cassandra/cursor.py:63 | indexing succeeds iff the index is within range, negative indices counting from the end |
| Cursor.PySliceConsecutive | djangocassandra/db/backends/cassandra/cursor.py:65-72 | two consecutive slices read the same rows as one |
| Cursor.BatchesAreOneSlice | djangocassandra/db/backends/cassandra/cursor.py:65-72 | repeated `fetchmany(size)` reads the buffer in order with no gap or repeat |
| Cursor.BatchesThenRest | djangocassandra/db/backends/cassandra/cursor.py:65-79 | batches followed by `fetchall` return every row from the start index on |
| Cursor.CassandraCursor.constructor | djangocassandra/db/backends/cassandra/cursor.py:20-22 | a reset cursor on the given session |
| Cursor.CassandraCursor.ResetAttributes | djangocassandra/db/backends/cassandra/cursor.py:24-30 | session, rows, index, statement, row flag and row id return to their initial values |
| Cursor.CassandraCursor.FetchOne | djangocassandra/db/backends/cassandra/cursor.py:56-63 | returns the row at the old index (or `IndexError`) and advances the index by one either way |
| Cursor.CassandraCursor.FetchMany | djangocassandra/db/backends/cassandra/cursor.py:65-72 | returns the slice from the index and advances it by `size` even past the end |
| Cursor.CassandraCursor.FetchAll | djangocassandra/db/backends/cassandra/cursor.py:74-79 | returns the rows from the index on, then empties the buffer and sets the index to -1 |
| Cursor.CassandraCursor.Execute | djangocassandra/db/backends/cassandra/cursor.py:81-86 | the session's result becomes the buffer, read from index 0, with the row flag set iff it is non-empty; without a session it raises and changes nothing |
| Cursor.CassandraCursor.Rollback | djangocassandra/db/backends/cassandra/cursor.py:100-101 | changes nothing |
| Cursor.CassandraCursor.Commit | djangocassandra/db/backends/cassandra/cursor.py:103-104 | changes nothing |
| Cursor.CassandraCursor.Close | djangocassandra/db/backends/cassandra/cursor.py:106-107 | the cursor is back in its reset state |

## Left out

- **Regular expressions.** `regex` and `iregex` match through a parameter `rx` standing for Python's `re`, and whether a pattern compiles is a parameter `compiles`; the regular-expression language itself is not modelled.
- **Values.** Only ints, strings and `None` are modelled. Floats, `Decimal`s and dates are not, and neither is the `TypeError` Python 2 raises when it compares a date with a value of another type.
- **Case folding.** `.lower()` folds ASCII letters only. Unicode case folding is not modelled.
- **Driver plumbing of `get_matching_rows`.** The statement, its `Token` parameters, the row factory and the pushed-down `order_by` are not modelled. `query.get_row_range` (called at predicate.py:449) is not part of this model. What the store returns for the pushed-down children is the parameter `fetch`.
- **Warnings.** `warnings.warn` is not modelled. The model returns a flag saying whether the warning was issued.
- **`CassandraQuery` execution.**
  - `get_session`/`execute` are the parameter `execute`.
  - The `fetch` generator, `delete` and the no-op `add_filter` are not modelled, because they only issue CQL over the network.
- **WHERE nodes.** Django's `WhereNode` is reduced to `EverythingNode` or a statement with parameters. The `%` interpolation is a parameter.
- **Cursor extras.** `executemany` (batch statements, `prepare`), `__getattr__` delegation to the session and the read-only properties are not modelled. `execute` returns the session's rows through the parameter `run`.
- **Range operands.** `None` and list operands for range lookups are excluded by `requires`. Django turns `exact None` into `isnull` before the backend sees it.
- **Aliasing.** Children of a compound node are values, so aliasing between a child object and other references to it is not modelled.
- **The sorting algorithm.** The order produced by `list.sort` is modelled by a stable insertion sort. Only its result is specified, and that result is unique for a stable sort.
- CompoundPredicates.CompoundPredicate.GetMatchingRows: it sorts a materialised sequence even where the source would call `sort` on a generator (no fallback children but an inefficient ordering), which as written raises `AttributeError`; the model follows the evident intent.
- Matching.MatchingRows: follows the corrected pipeline of the fourth Findings row (an OR or negated root with a fallback child reads every row and filters by all the children), the corrected key layout of the second row and the wrapped entries of the fifth row; `Matching.MatchingRowsAsWritten` keeps the OR-root filter as written. For an OR or negated root whose children are all servable, the rows are whatever the store returns for them, so no end-to-end result is proved for that case.
- RangePredicates.RangePredicate.IncorporateRangeOp: its OR branch is the corrected fold of the first Findings row (`RangePredicates.IncorporateOr`), not the source's OR branch, which `RangePredicates.IncorporateOrAsWritten` models.
- CompoundPredicates.CompoundPredicate.AddFilter: folds under OR through the corrected fold of the first Findings row, so a lookup the source would fold into a sibling as written starts a child of its own.
- RangePredicates.AndDeclineIsRedundant: does not cover `startswith`, because a declined AND `startswith` can overlap the interval only in part (`RangePredicates.AndDeclinedStartswithOverlaps`); `add_filter` then keeps it as a child of its own, which `Predicates.AddFilterMeaning` covers.
- RowSort.SortRows: when the comparator raises, the list is left as it was; the partially sorted state `list.sort` may leave after a later comparison raises is not modelled. The raises modelled are those of the first comparison: the empty string's `IndexError` and the empty list's or tuple's `UnboundLocalError`.
- **Exception messages.** Message texts other than `DatabaseError`'s are not modelled.

## Findings

| source | as written | input that shows it | evidently intended | confidence | as-written member | corrected member |
|---|---|---|---|---|---|---|
| djangocassandra/db/backends/cassandra/predicate.py:163-200 | an OR fold of gt/gte/lt/lte overwrites a bound even when the union of the two sets is not an interval | `c > 3` then `OR c <= 10` gives `(3, 10]` and drops `c = 20`; `c <= 5` then `OR c > 10` gives `(10, 5]` and drops `c = 3` | fold under OR only when the result is exactly the union, else leave the lookup to its own child | not executed | RangePredicates.OrFoldAsWrittenLosesRows | RangePredicates.OrFoldIsUnion |
| djangocassandra/db/backends/cassandra/predicate.py:427 | the primary-key column string is passed as the list of partition columns, so `in` tests it character by character | key `id`, filter `id = 1`, no index: as written the exact lookup on `id` is not servable | the key column is the one partition column | not executed | Matching.PartitionAsWrittenMissesKey | Matching.ExactKeyLookupIsServable |
| djangocassandra/db/backends/cassandra/utils.py:9-23 | with an empty ordering the loop never assigns `result`, so `return result` raises `UnboundLocalError` | `sort_rows([r1, r2], [])` | no ordering means all rows compare equal (0) | not executed | RowSort.EmptyOrderingRaises | RowSort.CompareRows |
| djangocassandra/db/backends/cassandra/predicate.py:516-522 | the fetched rows are filtered by the fallback children alone under the root's connector, so under an OR or negated root a row the servable children accept can be dropped | clustering column `c`, root `c = 1 OR name IS NULL`, row `{c: 1, name: "n"}`: `c = 1` is servable, the store returns the row for it, and the filter rejects it because its name is not null | an OR or negated root with a fallback child reads every row and filters by the whole node | not executed | Matching.OrRootAsWrittenDropsRows | Matching.FallbackRootReturnsMatchingRows |
| djangocassandra/db/backends/cassandra/predicate.py:524-526 | each inefficient ordering entry, a `(column, flag)` tuple, is passed to `sort_rows` unwrapped, so the comparator reads the column's first character and the flag as an entry | rows `{name: 1}`, `{name: 2}` ordered by `("name", False)`: raises `TypeError` | sort by that one entry, i.e. pass `[order]` | not executed | RowSort.BareEntryRaises | Matching.SortEachLastEntryDecides |
