/** `CassandraCursor`: a buffer of result rows and a read index over it,
    with Python's slicing and indexing rules. Running a statement on the
    session is a function parameter. */
module Cursor {
  import opened Wrappers
  import opened Errors
  import opened Values

  /** An open driver session. */
  datatype Session = Session(keyspace: string)

  // ---------------------------------------------------------------------------
  // Python sequence access

  /** A slice bound as Python normalises it: a negative bound counts from
      the end, and the result is clipped to `[0, n]`. */
  function SliceBound(i: int, n: nat): (r: nat)
    ensures r <= n
    ensures 0 <= i ==> r == if i < n then i else n
  {
    if i < 0 then (if i + n < 0 then 0 else i + n)
    else if i > n then n
    else i
  }

  /** `s[start:stop]`. */
  function PySlice<T>(s: seq<T>, start: int, stop: int): (r: seq<T>)
    ensures |r| <= |s|
    ensures 0 <= start ==> forall k :: 0 <= k < |r| ==> start + k < |s| && r[k] == s[start + k]
    ensures 0 <= start <= stop ==> |r| == (if stop < |s| then stop else |s|) - (if start < |s| then start else |s|)
  {
    var a, b := SliceBound(start, |s|), SliceBound(stop, |s|);
    if a < b then s[a..b] else []
  }

  /** `s[i]`: a negative index counts from the end; outside the sequence it
      raises `IndexError`. */
  function PyIndex<T>(s: seq<T>, i: int): (r: Result<T, Error>)
    ensures r.Success? <==> -|s| <= i < |s|
    ensures 0 <= i < |s| ==> r == Success(s[i])
    ensures -|s| <= i < 0 ==> r == Success(s[|s| + i])
  {
    if 0 <= i < |s| then Success(s[i])
    else if -|s| <= i < 0 then Success(s[|s| + i])
    else Failure(IndexError)
  }

  /** Two consecutive non-negative slices read the same rows as one. */
  lemma PySliceConsecutive<T>(s: seq<T>, i: nat, a: nat, b: nat)
    ensures PySlice(s, i, i + a) + PySlice(s, i + a, i + a + b) == PySlice(s, i, i + a + b)
  {
    var whole := PySlice(s, i, i + a + b);
    var left, right := PySlice(s, i, i + a), PySlice(s, i + a, i + a + b);
    assert |left| + |right| == |whole|;
    forall k | 0 <= k < |whole|
      ensures (left + right)[k] == whole[k]
    {
      if k >= |left| {
        assert right[k - |left|] == s[i + a + (k - |left|)];
      }
    }
  }

  /** A slice up to `mid` followed by the rest of the sequence is the
      slice from the same start to the end. */
  lemma PySliceThenRest<T>(s: seq<T>, i: nat, mid: nat)
    requires i <= mid
    ensures PySlice(s, i, mid) + PySlice(s, mid, |s|) == PySlice(s, i, |s|)
  {
    if mid <= |s| {
      PySliceConsecutive(s, i, mid - i, |s| - mid);
    } else {
      assert PySlice(s, mid, |s|) == [];
      assert PySlice(s, i, mid) == PySlice(s, i, |s|);
    }
  }

  /** The index after `count` calls of `fetchmany(size)` from `i`. */
  function BatchEnd(i: nat, size: nat, count: nat): (r: nat)
    ensures r == i + count * size
    decreases count
  {
    if count == 0 then i else BatchEnd(i + size, size, count - 1)
  }

  /** The rows `count` calls of `fetchmany(size)` return, starting at `i`. */
  function Batches<T>(s: seq<T>, i: nat, size: nat, count: nat): seq<T>
    decreases count
  {
    if count == 0 then [] else PySlice(s, i, i + size) + Batches(s, i + size, size, count - 1)
  }

  /** Fetching in batches reads the buffer in order, without gaps or
      repeats. */
  lemma {:induction false} BatchesAreOneSlice<T>(s: seq<T>, i: nat, size: nat, count: nat)
    ensures Batches(s, i, size, count) == PySlice(s, i, BatchEnd(i, size, count))
    decreases count
  {
    if count > 0 {
      var end := BatchEnd(i + size, size, count - 1);
      BatchesAreOneSlice(s, i + size, size, count - 1);
      PySliceConsecutive(s, i, size, end - (i + size));
    }
  }

  /** Batches followed by `fetchall` return every row from the start index
      on. */
  lemma BatchesThenRest<T>(s: seq<T>, i: nat, size: nat, count: nat)
    ensures Batches(s, i, size, count) + PySlice(s, i + count * size, |s|) == PySlice(s, i, |s|)
  {
    BatchesAreOneSlice(s, i, size, count);
    PySliceThenRest(s, i, BatchEnd(i, size, count));
  }

  // ---------------------------------------------------------------------------
  // The cursor

  class CassandraCursor {
    var session: Option<Session>
    var rows: seq<Row>
    var index: int
    var lastStatement: Option<string>
    var withRows: bool
    var lastRowId: Option<int>

    /** The state `_reset_attributes` leaves. */
    predicate IsReset()
      reads this
    {
      session.None? && rows == [] && index == -1 && lastStatement.None? && !withRows && lastRowId.None?
    }

    /** `__init__`: a reset cursor on the given session. */
    constructor (session: Option<Session>)
      ensures this.session == session
      ensures rows == [] && index == -1 && lastStatement.None? && !withRows && lastRowId.None?
    {
      this.session := session;
      rows := [];
      index := -1;
      lastStatement := None;
      withRows := false;
      lastRowId := None;
    }

    /** `_reset_attributes`. */
    method ResetAttributes()
      modifies this
      ensures IsReset()
    {
      session := None;
      rows := [];
      index := -1;
      lastStatement := None;
      withRows := false;
      lastRowId := None;
    }

    /** `fetchone`: the index moves on by one, even when reading the row at
        the old index raises. */
    method FetchOne() returns (r: Result<Row, Error>)
      modifies this
      ensures index == old(index) + 1
      ensures r == PyIndex(rows, old(index))
      ensures rows == old(rows) && session == old(session) && withRows == old(withRows)
      ensures lastStatement == old(lastStatement) && lastRowId == old(lastRowId)
    {
      index := index + 1;
      r := PyIndex(rows, index - 1);
    }

    /** `fetchmany(size)`: the slice from the index, and the index moves on
        by `size` however many rows there were. */
    method FetchMany(size: int) returns (many: seq<Row>)
      modifies this
      ensures many == PySlice(rows, old(index), old(index) + size)
      ensures index == old(index) + size
      ensures rows == old(rows) && session == old(session) && withRows == old(withRows)
      ensures lastStatement == old(lastStatement) && lastRowId == old(lastRowId)
    {
      many := PySlice(rows, index, index + size);
      index := index + size;
    }

    /** `fetchall`: the rows from the index on; the buffer is then emptied
        and the index set back to -1. */
    method FetchAll() returns (remaining: seq<Row>)
      modifies this
      ensures remaining == PySlice(old(rows), old(index), |old(rows)|)
      ensures rows == [] && index == -1
      ensures session == old(session) && withRows == old(withRows)
      ensures lastStatement == old(lastStatement) && lastRowId == old(lastRowId)
    {
      remaining := PySlice(rows, index, |rows|);
      rows := [];
      index := -1;
    }

    /** `execute`: the session's result becomes the buffer, read from the
        start. A closed cursor has no session to run on. */
    method Execute(query: string, args: Option<seq<Value>>,
                   run: (Session, string, Option<seq<Value>>) -> seq<Row>)
      returns (r: Result<seq<Row>, Error>)
      modifies this
      ensures old(session).None? ==> r == Failure(AttributeError) && unchanged(this)
      ensures old(session).Some? ==>
                && rows == run(old(session).value, query, args)
                && r == Success(rows)
                && index == 0
                && (withRows <==> rows != [])
                && session == old(session) && lastStatement == old(lastStatement) && lastRowId == old(lastRowId)
    {
      if session.None? {
        return Failure(AttributeError);
      }
      rows := run(session.value, query, args);
      index := 0;
      withRows := 0 != |rows|;
      return Success(rows);
    }

    /** `rollback`: nothing to undo. */
    method Rollback()
      ensures unchanged(this)
    {
    }

    /** `commit`: nothing to flush. */
    method Commit()
      ensures unchanged(this)
    {
    }

    /** `close`: back to the reset state. */
    method Close()
      modifies this
      ensures IsReset()
    {
      ResetAttributes();
    }
  }
}
