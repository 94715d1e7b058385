/** Column values, rows, and the Python 2 comparison rules the predicate
    engine and the row sorter rely on. */
module Values {
  import opened Wrappers

  /** A column value: a Python 2 integer or a unicode string. */
  datatype Value = Int(i: int) | Str(s: string)

  /** A fetched row: column name to value, where a stored null is `None`. */
  type Row = map<string, Option<Value>>

  /** `row.get(column, None)`: a missing column reads as `None`. */
  function Get(row: Row, column: string): Option<Value> {
    if column in row then row[column] else None
  }

  // ---------------------------------------------------------------------------
  // Ordering

  /** Lexicographic order on code points, as Python 2 compares unicode strings. */
  predicate StrLess(a: string, b: string)
    decreases |a|
  {
    if a == [] then b != []
    else if b == [] then false
    else a[0] < b[0] || (a[0] == b[0] && StrLess(a[1..], b[1..]))
  }

  /** Python 2 `<` on values: every number sorts below every string. */
  predicate Less(a: Value, b: Value) {
    match a
    case Int(x) => (match b case Int(y) => x < y case Str(_) => true)
    case Str(x) => (match b case Int(_) => false case Str(y) => StrLess(x, y))
  }

  predicate LessEq(a: Value, b: Value) {
    Less(a, b) || a == b
  }

  lemma {:induction false} StrLessIrreflexive(a: string)
    ensures !StrLess(a, a)
    decreases |a|
  {
    if a != [] {
      StrLessIrreflexive(a[1..]);
    }
  }

  lemma {:induction false} StrLessTransitive(a: string, b: string, c: string)
    requires StrLess(a, b) && StrLess(b, c)
    ensures StrLess(a, c)
    decreases |a|
  {
    if a != [] && a[0] == b[0] && b[0] == c[0] {
      StrLessTransitive(a[1..], b[1..], c[1..]);
    }
  }

  lemma {:induction false} StrLessTrichotomy(a: string, b: string)
    ensures StrLess(a, b) || a == b || StrLess(b, a)
    decreases |a|
  {
    if a != [] && b != [] && a[0] == b[0] {
      StrLessTrichotomy(a[1..], b[1..]);
      if a[1..] == b[1..] {
        assert a == [a[0]] + a[1..] && b == [b[0]] + b[1..];
      }
    }
  }

  lemma LessIrreflexive(a: Value)
    ensures !Less(a, a)
  {
    if a.Str? {
      StrLessIrreflexive(a.s);
    }
  }

  lemma LessTransitive(a: Value, b: Value, c: Value)
    requires Less(a, b) && Less(b, c)
    ensures Less(a, c)
  {
    if a.Str? && b.Str? && c.Str? {
      StrLessTransitive(a.s, b.s, c.s);
    }
  }

  /** Exactly one of `a < b`, `a == b`, `b < a` holds. */
  lemma LessTrichotomy(a: Value, b: Value)
    ensures Less(a, b) || a == b || Less(b, a)
    ensures !(Less(a, b) && Less(b, a))
    ensures Less(a, b) ==> a != b
  {
    LessIrreflexive(a);
    if a.Str? && b.Str? {
      StrLessTrichotomy(a.s, b.s);
    }
    if Less(a, b) && Less(b, a) {
      LessTransitive(a, b, a);
    }
  }

  lemma LessEqTransitive(a: Value, b: Value, c: Value)
    requires LessEq(a, b) && LessEq(b, c)
    ensures LessEq(a, c)
  {
    if Less(a, b) && Less(b, c) {
      LessTransitive(a, b, c);
    }
  }

  /** Python 2 `cmp` on values that may be `None`; `None` is below every value. */
  function Cmp(a: Option<Value>, b: Option<Value>): (r: int)
    ensures r == -1 || r == 0 || r == 1
    ensures r == 0 <==> a == b
  {
    match a
    case None => if b.None? then 0 else -1
    case Some(x) =>
      match b
      case None => 1
      case Some(y) =>
        LessTrichotomy(x, y);
        if Less(x, y) then -1 else if x == y then 0 else 1
  }

  lemma CmpAntisymmetric(a: Option<Value>, b: Option<Value>)
    ensures Cmp(a, b) == -Cmp(b, a)
  {
    if a.Some? && b.Some? {
      LessTrichotomy(a.value, b.value);
    }
  }

  lemma CmpTransitive(a: Option<Value>, b: Option<Value>, c: Option<Value>)
    requires Cmp(a, b) < 0 && Cmp(b, c) < 0
    ensures Cmp(a, c) < 0
  {
    if a.Some? {
      LessTrichotomy(a.value, b.value);
      LessTrichotomy(b.value, c.value);
      LessTrichotomy(a.value, c.value);
      LessTransitive(a.value, b.value, c.value);
    }
  }

  // ---------------------------------------------------------------------------
  // String operations used by the lookups

  predicate HasPrefix(x: string, p: string) {
    |p| <= |x| && x[..|p|] == p
  }

  predicate HasSuffix(x: string, p: string) {
    |p| <= |x| && x[|x| - |p|..] == p
  }

  /** `x.find(p) >= 0`. */
  predicate IsSubstring(p: string, x: string)
    decreases |x|
  {
    HasPrefix(x, p) || (x != [] && IsSubstring(p, x[1..]))
  }

  /** `.lower()` restricted to ASCII letters. */
  function LowerChar(c: char): char {
    if 'A' <= c <= 'Z' then (c as int + 32) as char else c
  }

  function Lower(s: string): (r: string)
    ensures |r| == |s|
    ensures forall i :: 0 <= i < |s| ==> r[i] == LowerChar(s[i])
  {
    seq(|s|, i requires 0 <= i < |s| => LowerChar(s[i]))
  }

  /** The end of the `startswith` range can be built: `value[-1]` exists and
      `chr(ord(value[-1]) + 1)` joins a unicode prefix without a decode error. */
  predicate HasSuccessor(v: string) {
    v != [] && (v[|v| - 1] as int) < 127
  }

  /** `value[:-1] + chr(ord(value[-1]) + 1)`. */
  function Successor(v: string): (r: string)
    requires HasSuccessor(v)
    ensures |r| == |v|
  {
    v[..|v| - 1] + [(v[|v| - 1] as int + 1) as char]
  }

  lemma SuccessorUnfold(v: string)
    requires HasSuccessor(v) && |v| > 1
    ensures HasSuccessor(v[1..])
    ensures Successor(v)[0] == v[0]
    ensures Successor(v)[1..] == Successor(v[1..])
  {
  }

  /** The half-open range `[v, Successor(v))` holds exactly the strings that
      start with `v`. */
  lemma {:induction false} PrefixRange(v: string, x: string)
    requires HasSuccessor(v)
    ensures HasPrefix(x, v) <==> !StrLess(x, v) && StrLess(x, Successor(v))
    decreases |v|
  {
    var sv := Successor(v);
    if |v| == 1 {
      assert sv == [(v[0] as int + 1) as char];
      if x != [] {
        assert StrLess(x, v) <==> x[0] < v[0];
        assert StrLess(x, sv) <==> x[0] < sv[0];
        assert HasPrefix(x, v) <==> x[0] == v[0];
      }
    } else {
      SuccessorUnfold(v);
      if x != [] && x[0] == v[0] {
        PrefixRange(v[1..], x[1..]);
        assert HasPrefix(x, v) <==> HasPrefix(x[1..], v[1..]) by {
          if HasPrefix(x[1..], v[1..]) {
            assert x[..|v|] == [x[0]] + x[1..][..|v| - 1];
            assert v == [v[0]] + v[1..];
          }
        }
      }
    }
  }

  /** The same fact on values: an int never falls in a string range. */
  lemma StartswithRange(v: string, x: Value)
    requires HasSuccessor(v)
    ensures (x.Str? && HasPrefix(x.s, v)) <==> LessEq(Str(v), x) && Less(x, Str(Successor(v)))
  {
    if x.Str? {
      PrefixRange(v, x.s);
      LessTrichotomy(Str(v), x);
    }
  }
}
