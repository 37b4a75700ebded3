/**
  The SQL the controllers send, over a table held as a sequence of rows in
  insertion order: `WHERE` is a filter, `ORDER BY` a stable sort on a
  nullable date column, `UPDATE … WHERE` a map over the matching rows,
  `DELETE … WHERE` a filter on the negated condition and `COUNT(*)` the
  length of a filter.
*/
module Query {
  import opened Wrappers

  // ---------------------------------------------------------------------
  // WHERE
  // ---------------------------------------------------------------------

  /** The rows that satisfy `p`, in table order. */
  function Where<T(!new)>(table: seq<T>, p: T -> bool): (r: seq<T>)
    ensures |r| <= |table|
  {
    if table == [] then []
    else
      var rest := Where(table[..|table| - 1], p);
      var last := table[|table| - 1];
      if p(last) then rest + [last] else rest
  }

  /** A row is selected exactly when it is in the table and satisfies the condition, as often as it occurs there. */
  lemma {:induction false} WhereContents<T(!new)>(table: seq<T>, p: T -> bool)
    ensures forall x :: x in Where(table, p) <==> x in table && p(x)
    ensures forall x :: multiset(Where(table, p))[x] == if p(x) then multiset(table)[x] else 0
    decreases |table|
  {
    if table != [] {
      var last := table[|table| - 1];
      WhereContents(table[..|table| - 1], p);
      assert table == table[..|table| - 1] + [last];
    }
  }

  lemma {:induction false} WhereAppend<T(!new)>(a: seq<T>, b: seq<T>, p: T -> bool)
    ensures Where(a + b, p) == Where(a, p) + Where(b, p)
    decreases |b|
  {
    if b == [] {
      assert a + b == a;
    } else {
      var b' := b[..|b| - 1];
      assert (a + b)[..|a + b| - 1] == a + b';
      WhereAppend(a, b', p);
    }
  }

  /** Filtering twice is filtering by the conjunction. */
  lemma {:induction false} WhereWhere<T(!new)>(table: seq<T>, p: T -> bool, q: T -> bool)
    ensures Where(Where(table, p), q) == Where(table, x => p(x) && q(x))
    decreases |table|
  {
    if table != [] {
      var init := table[..|table| - 1];
      var last := table[|table| - 1];
      WhereWhere(init, p, q);
      if p(last) {
        WhereAppend(Where(init, p), [last], q);
      }
    }
  }

  /** Filters that agree on every row of the table select the same rows. */
  lemma {:induction false} WhereCongruent<T(!new)>(table: seq<T>, p: T -> bool, q: T -> bool)
    requires forall x :: x in table ==> (p(x) <==> q(x))
    ensures Where(table, p) == Where(table, q)
    decreases |table|
  {
    if table != [] {
      WhereCongruent(table[..|table| - 1], p, q);
    }
  }

  /** `SELECT COUNT(*) … WHERE p`. */
  function Count<T(!new)>(table: seq<T>, p: T -> bool): (n: nat)
    ensures n <= |table|
    ensures n == |Where(table, p)|
  {
    if table == [] then 0
    else Count(table[..|table| - 1], p) + (if p(table[|table| - 1]) then 1 else 0)
  }

  /** Two conditions that never hold together count at most as many rows as their disjunction. */
  lemma {:induction false} CountDisjoint<T(!new)>(table: seq<T>, p: T -> bool, q: T -> bool, r: T -> bool)
    requires forall x :: x in table ==> !(p(x) && q(x))
    requires forall x :: x in table && (p(x) || q(x)) ==> r(x)
    ensures Count(table, p) + Count(table, q) <= Count(table, r)
    decreases |table|
  {
    if table != [] {
      CountDisjoint(table[..|table| - 1], p, q, r);
    }
  }

  /** A condition implied by another counts at least as many rows. */
  lemma {:induction false} CountMonotone<T(!new)>(table: seq<T>, p: T -> bool, q: T -> bool)
    requires forall x :: x in table && p(x) ==> q(x)
    ensures Count(table, p) <= Count(table, q)
    decreases |table|
  {
    if table != [] {
      CountMonotone(table[..|table| - 1], p, q);
    }
  }

  /** A condition that is the disjoint union of two others counts exactly their sum. */
  lemma {:induction false} CountSplit<T(!new)>(table: seq<T>, p: T -> bool, q: T -> bool, r: T -> bool)
    requires forall x :: x in table ==> !(p(x) && q(x))
    requires forall x :: x in table ==> (r(x) <==> p(x) || q(x))
    ensures Count(table, p) + Count(table, q) == Count(table, r)
    decreases |table|
  {
    if table != [] {
      CountSplit(table[..|table| - 1], p, q, r);
    }
  }

  /** Every row is counted exactly when every row satisfies the condition. */
  lemma {:induction false} CountAll<T(!new)>(table: seq<T>, p: T -> bool)
    ensures Count(table, p) == |table| <==> forall x :: x in table ==> p(x)
    decreases |table|
  {
    if table != [] {
      var init := table[..|table| - 1];
      CountAll(init, p);
      assert table == init + [table[|table| - 1]];
      if Count(table, p) == |table| {
        assert Count(init, p) == |init| by {
          assert Count(init, p) <= |init|;
        }
      }
    }
  }

  /** No row satisfies the condition: the count is 0. */
  lemma {:induction false} CountNone<T(!new)>(table: seq<T>, p: T -> bool)
    requires forall x :: x in table ==> !p(x)
    ensures Count(table, p) == 0
    decreases |table|
  {
    if table != [] {
      CountNone(table[..|table| - 1], p);
    }
  }

  // ---------------------------------------------------------------------
  // ORDER BY on a DATE column; NULL sorts lowest
  // ---------------------------------------------------------------------

  datatype Direction = Asc | Desc

  /** `a` sorts no later than `b` in ascending order; NULL is below every date. */
  predicate KeyLe(a: Option<int>, b: Option<int>) {
    a.None? || (b.Some? && a.value <= b.value)
  }

  predicate InOrder(a: Option<int>, b: Option<int>, dir: Direction) {
    if dir == Asc then KeyLe(a, b) else KeyLe(b, a)
  }

  lemma InOrderTotal(a: Option<int>, b: Option<int>, dir: Direction)
    ensures InOrder(a, b, dir) || InOrder(b, a, dir)
  {
  }

  predicate SortedBy<T(!new)>(s: seq<T>, key: T -> Option<int>, dir: Direction) {
    forall i, j :: 0 <= i < j < |s| ==> InOrder(key(s[i]), key(s[j]), dir)
  }

  function Insert<T(!new)>(x: T, s: seq<T>, key: T -> Option<int>, dir: Direction): (r: seq<T>)
    requires SortedBy(s, key, dir)
    ensures SortedBy(r, key, dir)
    ensures multiset(r) == multiset(s) + multiset{x}
  {
    if s == [] then [x]
    else if !InOrder(key(s[0]), key(x), dir) then [x] + s
    else
      var rest := Insert(x, s[1..], key, dir);
      assert s == [s[0]] + s[1..];
      forall y | y in rest
        ensures InOrder(key(s[0]), key(y), dir)
      {
        assert y in multiset(rest);
      }
      [s[0]] + rest
  }

  /** A stable insertion sort: rows with equal keys keep their table order. */
  function OrderBy<T(!new)>(s: seq<T>, key: T -> Option<int>, dir: Direction): (r: seq<T>)
    ensures SortedBy(r, key, dir)
    ensures multiset(r) == multiset(s)
    ensures |r| == |s|
  {
    if s == [] then []
    else
      assert s == s[..|s| - 1] + [s[|s| - 1]];
      var r := Insert(s[|s| - 1], OrderBy(s[..|s| - 1], key, dir), key, dir);
      assert |r| == |multiset(r)|;
      r
  }

  /** Filtering an ordered list keeps it ordered: the survivors keep their relative order. */
  lemma {:induction false} WhereSorted<T(!new)>(table: seq<T>, p: T -> bool, key: T -> Option<int>, dir: Direction)
    requires SortedBy(table, key, dir)
    ensures SortedBy(Where(table, p), key, dir)
    decreases |table|
  {
    if table != [] {
      var init := table[..|table| - 1];
      var last := table[|table| - 1];
      assert SortedBy(init, key, dir);
      WhereSorted(init, p, key, dir);
      if p(last) {
        WhereContents(init, p);
        var rest := Where(init, p);
        forall i | 0 <= i < |rest|
          ensures InOrder(key(rest[i]), key(last), dir)
        {
          assert rest[i] in init;
          var j :| 0 <= j < |init| && init[j] == rest[i];
          assert table[j] == rest[i];
        }
      }
    }
  }

  /** `SELECT * … WHERE p ORDER BY key dir` has exactly the matching rows, in order. */
  lemma SelectContents<T(!new)>(table: seq<T>, p: T -> bool, key: T -> Option<int>, dir: Direction)
    ensures var r := OrderBy(Where(table, p), key, dir);
            && SortedBy(r, key, dir)
            && (forall x :: x in r <==> x in table && p(x))
            && (forall x :: multiset(r)[x] == if p(x) then multiset(table)[x] else 0)
  {
    var r := OrderBy(Where(table, p), key, dir);
    WhereContents(table, p);
    forall x
      ensures x in r <==> x in Where(table, p)
    {
      assert x in r <==> x in multiset(r);
    }
  }

  /**
    The loop that reads a query's result set: the condition is applied to each
    row of the table in turn and the survivors are then ordered.
  */
  method Select<T(!new)>(table: seq<T>, p: T -> bool, key: T -> Option<int>, dir: Direction)
    returns (rows: seq<T>)
    ensures rows == OrderBy(Where(table, p), key, dir)
  {
    var matching: seq<T> := [];
    var i := 0;
    while i < |table|
      invariant 0 <= i <= |table|
      invariant matching == Where(table[..i], p)
    {
      WhereSnoc(table, i, p);
      if p(table[i]) {
        matching := matching + [table[i]];
      }
      i := i + 1;
    }
    assert table[..i] == table;
    rows := OrderBy(matching, key, dir);
  }

  lemma WhereSnoc<T(!new)>(table: seq<T>, i: int, p: T -> bool)
    requires 0 <= i < |table|
    ensures Where(table[..i + 1], p) == Where(table[..i], p) + (if p(table[i]) then [table[i]] else [])
  {
    assert table[..i + 1] == table[..i] + [table[i]];
    assert table[..i + 1][..i] == table[..i];
  }

  // ---------------------------------------------------------------------
  // UPDATE … WHERE and DELETE … WHERE
  // ---------------------------------------------------------------------

  /** `UPDATE … SET … WHERE p`: every matching row is rewritten by `f`, the rest are untouched. */
  function UpdateWhere<T(!new)>(table: seq<T>, p: T -> bool, f: T -> T): (r: seq<T>)
    ensures |r| == |table|
    ensures forall i :: 0 <= i < |table| ==> r[i] == if p(table[i]) then f(table[i]) else table[i]
  {
    seq(|table|, i requires 0 <= i < |table| => if p(table[i]) then f(table[i]) else table[i])
  }

  /** Rewriting rows that match nothing leaves the table as it was. */
  lemma UpdateNoMatch<T(!new)>(table: seq<T>, p: T -> bool, f: T -> T)
    requires forall x :: x in table ==> !p(x)
    ensures UpdateWhere(table, p, f) == table
  {
  }

  function Not<T>(p: T -> bool): T -> bool {
    x => !p(x)
  }

  /** `DELETE FROM … WHERE p`. */
  function DeleteWhere<T(!new)>(table: seq<T>, p: T -> bool): (r: seq<T>)
    ensures forall x :: x in r <==> x in table && !p(x)
    ensures |r| <= |table|
  {
    WhereContents(table, Not(p));
    Where(table, Not(p))
  }

  // ---------------------------------------------------------------------
  // Lookup by key and GROUP BY
  // ---------------------------------------------------------------------

  /** The first row satisfying `p` (a `SELECT … WHERE key = ?` read with one `rs.next()`). */
  function FindFirst<T(!new)>(table: seq<T>, p: T -> bool): (r: Option<T>)
    ensures r.Some? <==> exists x :: x in table && p(x)
    ensures r.Some? ==> r.value in table && p(r.value)
  {
    if table == [] then None
    else if p(table[0]) then Some(table[0])
    else FindFirst(table[1..], p)
  }

  /** The distinct values of a column, in order of first appearance (the groups of `GROUP BY`). */
  function Distinct<T, K(==,!new)>(table: seq<T>, key: T -> K): (ks: seq<K>)
    ensures forall k :: k in ks <==> exists x :: x in table && key(x) == k
    ensures forall i, j :: 0 <= i < j < |ks| ==> ks[i] != ks[j]
  {
    if table == [] then []
    else
      var init := Distinct(table[..|table| - 1], key);
      var last := table[|table| - 1];
      assert table == table[..|table| - 1] + [last];
      if key(last) in init then init else init + [key(last)]
  }

  /** Each row of a result set read into a fresh object, keeping only the columns the reader copies. */
  function MapRows<T(!new)>(rows: seq<T>, f: T -> T): (r: seq<T>)
    ensures |r| == |rows|
    ensures forall i :: 0 <= i < |rows| ==> r[i] == f(rows[i])
  {
    seq(|rows|, i requires 0 <= i < |rows| => f(rows[i]))
  }

  /** Reading keeps the order when it keeps the sort column. */
  lemma MapRowsSorted<T(!new)>(rows: seq<T>, f: T -> T, key: T -> Option<int>, dir: Direction)
    requires SortedBy(rows, key, dir)
    requires forall x :: key(f(x)) == key(x)
    ensures SortedBy(MapRows(rows, f), key, dir)
  {
  }

  lemma MapRowsContents<T(!new)>(rows: seq<T>, f: T -> T)
    ensures forall y :: y in MapRows(rows, f) <==> exists x :: x in rows && f(x) == y
  {
    var r := MapRows(rows, f);
    forall y | y in r
      ensures exists x :: x in rows && f(x) == y
    {
      var i :| 0 <= i < |r| && r[i] == y;
      assert rows[i] in rows;
    }
    forall x | x in rows
      ensures f(x) in r
    {
      var i :| 0 <= i < |rows| && rows[i] == x;
      assert r[i] == f(x);
    }
  }

  /** The `while (rs.next())` loop that reads every row of a result set into a new object. */
  method ReadAll<T(!new)>(rows: seq<T>, f: T -> T) returns (list: seq<T>)
    ensures list == MapRows(rows, f)
  {
    list := [];
    var i := 0;
    while i < |rows|
      invariant 0 <= i <= |rows|
      invariant |list| == i
      invariant forall k :: 0 <= k < i ==> list[k] == f(rows[k])
    {
      list := list + [f(rows[i])];
      i := i + 1;
    }
  }

  // ---------------------------------------------------------------------
  // Primary keys
  // ---------------------------------------------------------------------

  /** No two rows share a key. */
  predicate UniqueKeys<T(!new), K(==)>(table: seq<T>, key: T -> K) {
    forall i, j :: 0 <= i < j < |table| ==> key(table[i]) != key(table[j])
  }

  /** Deleting rows cannot create a duplicate key. */
  lemma {:induction false} WhereKeepsUniqueKeys<T(!new), K>(table: seq<T>, key: T -> K, p: T -> bool)
    requires UniqueKeys(table, key)
    ensures UniqueKeys(Where(table, p), key)
    decreases |table|
  {
    if table != [] {
      var init := table[..|table| - 1];
      var last := table[|table| - 1];
      WhereKeepsUniqueKeys(init, key, p);
      WhereContents(init, p);
      var w := Where(init, p);
      if p(last) {
        forall i | 0 <= i < |w|
          ensures key(w[i]) != key(last)
        {
          assert w[i] in init;
        }
      }
    }
  }

  /** Deleting rows keeps keys unique and introduces no key. */
  lemma DeleteWhereKeys<T(!new), K>(table: seq<T>, key: T -> K, p: T -> bool)
    requires UniqueKeys(table, key)
    ensures UniqueKeys(DeleteWhere(table, p), key)
    ensures forall x :: x in DeleteWhere(table, p) ==> x in table
  {
    WhereKeepsUniqueKeys(table, key, Not(p));
  }

  /** A table whose rows kept their keys, position by position, has the same keys. */
  lemma SameKeys<T(!new), K>(table: seq<T>, r: seq<T>, key: T -> K)
    requires |r| == |table|
    requires forall i :: 0 <= i < |r| ==> key(r[i]) == key(table[i])
    ensures UniqueKeys(table, key) ==> UniqueKeys(r, key)
    ensures forall x :: x in r ==> exists y :: y in table && key(y) == key(x)
  {
    forall x | x in r
      ensures exists y :: y in table && key(y) == key(x)
    {
      var i :| 0 <= i < |r| && r[i] == x;
      assert table[i] in table;
    }
  }

  /** Appending a row whose key is new keeps keys unique. */
  lemma AppendKeepsUniqueKeys<T(!new), K>(table: seq<T>, key: T -> K, x: T)
    requires UniqueKeys(table, key)
    requires forall y :: y in table ==> key(y) != key(x)
    ensures UniqueKeys(table + [x], key)
  {
    var r := table + [x];
    forall i, j | 0 <= i < j < |r|
      ensures key(r[i]) != key(r[j])
    {
      if j == |table| {
        assert r[i] in table;
      }
    }
  }
}
