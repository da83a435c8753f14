/**
 * Lines 48-51: rows go into a dictionary keyed by `(day, chain)`, so a later
 * row replaces an earlier one with the same key; the dictionary's items are
 * then listed in ascending key order (Python compares the key tuples field by
 * field, and strings by code point).
 */
module RowTable {
  import opened Strings
  import opened CivilDate
  import opened ChainHistory

  type Key = (string, string)

  function KeyOf(r: Row): Key
  {
    (r.day, r.chain)
  }

  /** Python's `<` on `(day, chain)` tuples. */
  predicate KeyLess(a: Key, b: Key)
  {
    StrLess(a.0, b.0) || (a.0 == b.0 && StrLess(a.1, b.1))
  }

  lemma KeyLessIrreflexive(a: Key)
    ensures !KeyLess(a, a)
  {
    StrLessIrreflexive(a.0);
    StrLessIrreflexive(a.1);
  }

  lemma KeyLessTransitive(a: Key, b: Key, c: Key)
    requires KeyLess(a, b) && KeyLess(b, c)
    ensures KeyLess(a, c)
  {
    if StrLess(a.0, b.0) && StrLess(b.0, c.0) {
      StrLessTransitive(a.0, b.0, c.0);
    } else if a.0 == b.0 && b.0 == c.0 {
      StrLessTransitive(a.1, b.1, c.1);
    }
  }

  lemma KeyLessTotal(a: Key, b: Key)
    ensures a == b || KeyLess(a, b) || KeyLess(b, a)
  {
    StrLessTotal(a.0, b.0);
    StrLessTotal(a.1, b.1);
  }

  function KeysOf(rows: seq<Row>): set<Key>
  {
    set r | r in rows :: KeyOf(r)
  }

  lemma KeysOfAppend(a: seq<Row>, b: seq<Row>)
    ensures KeysOf(a + b) == KeysOf(a) + KeysOf(b)
  {
    forall k | k in KeysOf(a + b) ensures k in KeysOf(a) + KeysOf(b) {
      var r :| r in a + b && KeyOf(r) == k;
    }
  }

  /** No later row of `rows` has the key of `rows[i]`. */
  predicate IsLastWrite(rows: seq<Row>, i: int)
    requires 0 <= i < |rows|
  {
    forall j :: i < j < |rows| ==> KeyOf(rows[j]) != KeyOf(rows[i])
  }

  /** The dictionary after `dedup[(d, c)] = v` for every row, in order. */
  function LastWins(rows: seq<Row>): map<Key, real>
  {
    if rows == [] then map[]
    else
      var last := rows[|rows| - 1];
      LastWins(rows[..|rows| - 1])[KeyOf(last) := last.tvl]
  }

  /** Lines 48-50. */
  method Dedup(allRows: seq<Row>) returns (dedup: map<Key, real>)
    ensures dedup == LastWins(allRows)
  {
    dedup := map[];
    for i := 0 to |allRows|
      invariant dedup == LastWins(allRows[..i])
    {
      var row := allRows[i];
      assert allRows[..i + 1][..i] == allRows[..i];
      dedup := dedup[(row.day, row.chain) := row.tvl];
    }
    assert allRows[..|allRows|] == allRows;
  }

  /**
   * The dictionary holds exactly the keys of the rows, and each key's value is
   * that of the last row with the key.
   */
  lemma {:induction false} LastWinsMeaning(rows: seq<Row>)
    ensures LastWins(rows).Keys == KeysOf(rows)
    ensures forall i :: 0 <= i < |rows| && IsLastWrite(rows, i) ==> LastWins(rows)[KeyOf(rows[i])] == rows[i].tvl
  {
    if rows != [] {
      var n := |rows| - 1;
      var front := rows[..n];
      LastWinsMeaning(front);
      assert rows == front + [rows[n]];
      KeysOfAppend(front, [rows[n]]);
      forall i | 0 <= i < |rows| && IsLastWrite(rows, i)
        ensures LastWins(rows)[KeyOf(rows[i])] == rows[i].tvl
      {
        if i < n {
          assert KeyOf(rows[n]) != KeyOf(rows[i]);
          assert IsLastWrite(front, i);
        }
      }
    }
  }

  /** Appending one row adds its key. */
  lemma KeysOfSnoc(front: seq<Row>, r: Row)
    ensures KeysOf(front + [r]) == KeysOf(front) + {KeyOf(r)}
  {
    KeysOfAppend(front, [r]);
    assert KeysOf([r]) == {KeyOf(r)} by {
      assert r in [r];
    }
  }

  /** At most one entry per row. */
  lemma {:induction false} KeysOfSize(rows: seq<Row>)
    ensures |KeysOf(rows)| <= |rows|
  {
    if rows != [] {
      var n := |rows| - 1;
      KeysOfSize(rows[..n]);
      assert rows == rows[..n] + [rows[n]];
      KeysOfSnoc(rows[..n], rows[n]);
      CardinalityOfAdd(KeysOf(rows[..n]), KeyOf(rows[n]));
    }
  }

  lemma CardinalityOfAdd(s: set<Key>, x: Key)
    ensures |s + {x}| <= |s| + 1
  {
    if x in s {
      assert s + {x} == s;
    }
  }

  /** The smallest key of a non-empty set. */
  function MinKey(keys: set<Key>): (k: Key)
    requires keys != {}
    ensures k in keys
    ensures forall j :: j in keys ==> !KeyLess(j, k)
  {
    MinKeyExists(keys);
    KeyOrderIsStrictTotal();
    var k :| k in keys && forall j :: j in keys ==> !KeyLess(j, k);
    k
  }

  lemma KeyOrderIsStrictTotal()
    ensures forall a: Key, b: Key :: a == b || KeyLess(a, b) || KeyLess(b, a)
  {
    forall a: Key, b: Key ensures a == b || KeyLess(a, b) || KeyLess(b, a) {
      KeyLessTotal(a, b);
    }
  }

  lemma {:induction false} MinKeyExists(keys: set<Key>)
    requires keys != {}
    ensures exists k :: k in keys && forall j :: j in keys ==> !KeyLess(j, k)
    decreases |keys|
  {
    var x :| x in keys;
    var rest := keys - {x};
    assert |rest| == |keys| - 1;
    if rest == {} {
      assert keys == {x};
      KeyLessIrreflexive(x);
    } else {
      MinKeyExists(rest);
      var m :| m in rest && forall j :: j in rest ==> !KeyLess(j, m);
      if KeyLess(x, m) {
        forall j | j in keys ensures !KeyLess(j, x) {
          if j == x {
            KeyLessIrreflexive(x);
          } else if KeyLess(j, x) {
            KeyLessTransitive(j, x, m);
          }
        }
        assert x in keys;
      } else {
        forall j | j in keys ensures !KeyLess(j, m) {
          if j != x {
            assert j in rest;
          }
        }
        assert m in keys;
      }
    }
  }

  /** Keys strictly ascending, as `sorted` lists the items of a dictionary. */
  predicate KeysAscending(rows: seq<Row>)
  {
    forall i, j :: 0 <= i < j < |rows| ==> KeyLess(KeyOf(rows[i]), KeyOf(rows[j]))
  }

  /**
   * `rows` lists the items of `m`, one row per key, with the key strictly
   * ascending: the only sequence that does.
   */
  ghost predicate IsSortedItems(rows: seq<Row>, m: map<Key, real>)
  {
    && |rows| == |m|
    && KeysOf(rows) == m.Keys
    && (forall i :: 0 <= i < |rows| ==> KeyOf(rows[i]) in m && m[KeyOf(rows[i])] == rows[i].tvl)
    && KeysAscending(rows)
  }

  /** Line 51: `[(d, c, v) for (d, c), v in sorted(dedup.items())]`. */
  function SortedItems(m: map<Key, real>): (rows: seq<Row>)
    ensures IsSortedItems(rows, m)
    decreases |m|
  {
    if m == map[] then []
    else
      var k := MinKey(m.Keys);
      var rest := m - {k};
      assert rest.Keys == m.Keys - {k};
      var tail := SortedItems(rest);
      SmallestFirst(m, k, tail);
      [Row(k.0, k.1, m[k])] + tail
  }

  /** Putting the smallest item in front of the sorted other items sorts them all. */
  lemma SmallestFirst(m: map<Key, real>, k: Key, tail: seq<Row>)
    requires k in m && forall j :: j in m ==> !KeyLess(j, k)
    requires IsSortedItems(tail, m - {k})
    ensures IsSortedItems([Row(k.0, k.1, m[k])] + tail, m)
  {
    var head := Row(k.0, k.1, m[k]);
    assert KeyOf(head) == k;
    SmallestFirstKeys(m, head, tail);
    SmallestFirstValues(m, head, tail);
    assert forall i :: 0 <= i < |tail| ==> KeyOf(tail[i]) in m && KeyOf(tail[i]) != k;
    SmallestFirstOrder(head, tail);
  }

  lemma SmallestFirstKeys(m: map<Key, real>, head: Row, tail: seq<Row>)
    requires KeyOf(head) in m
    requires |tail| == |m - {KeyOf(head)}| && KeysOf(tail) == (m - {KeyOf(head)}).Keys
    ensures |[head] + tail| == |m| && KeysOf([head] + tail) == m.Keys
  {
    var k := KeyOf(head);
    var rest := m - {k};
    assert rest.Keys == m.Keys - {k};
    assert |rest.Keys| == |m.Keys| - 1;
    KeysOfAppend([head], tail);
    assert KeysOf([head]) == {k} by {
      assert head in [head];
    }
  }

  lemma SmallestFirstValues(m: map<Key, real>, head: Row, tail: seq<Row>)
    requires KeyOf(head) in m && m[KeyOf(head)] == head.tvl
    requires forall i :: 0 <= i < |tail| ==> KeyOf(tail[i]) in m - {KeyOf(head)} && (m - {KeyOf(head)})[KeyOf(tail[i])] == tail[i].tvl
    ensures forall i :: 0 <= i < |tail| + 1 ==> KeyOf(([head] + tail)[i]) in m && m[KeyOf(([head] + tail)[i])] == ([head] + tail)[i].tvl
  {
    var rows := [head] + tail;
    forall i | 0 <= i < |rows| ensures KeyOf(rows[i]) in m && m[KeyOf(rows[i])] == rows[i].tvl {
      if i > 0 {
        assert rows[i] == tail[i - 1];
      }
    }
  }

  lemma SmallestFirstOrder(head: Row, tail: seq<Row>)
    requires forall i :: 0 <= i < |tail| ==> !KeyLess(KeyOf(tail[i]), KeyOf(head)) && KeyOf(tail[i]) != KeyOf(head)
    requires forall i, j :: 0 <= i < j < |tail| ==> KeyLess(KeyOf(tail[i]), KeyOf(tail[j]))
    ensures forall i, j :: 0 <= i < j < |tail| + 1 ==> KeyLess(KeyOf(([head] + tail)[i]), KeyOf(([head] + tail)[j]))
  {
    var rows := [head] + tail;
    forall i, j | 0 <= i < j < |rows| ensures KeyLess(KeyOf(rows[i]), KeyOf(rows[j])) {
      assert rows[j] == tail[j - 1];
      if i > 0 {
        assert rows[i] == tail[i - 1];
      } else {
        KeyLessTotal(KeyOf(head), KeyOf(tail[j - 1]));
      }
    }
  }

  /** Strictly ascending keys are pairwise distinct. */
  lemma AscendingKeysDistinct(rows: seq<Row>, m: map<Key, real>)
    requires IsSortedItems(rows, m)
    ensures forall i, j :: 0 <= i < j < |rows| ==> KeyOf(rows[i]) != KeyOf(rows[j])
  {
    forall i, j | 0 <= i < j < |rows| ensures KeyOf(rows[i]) != KeyOf(rows[j]) {
      KeyLessIrreflexive(KeyOf(rows[i]));
    }
  }

  /** Feeding the sorted items back through the dictionary gives the same dictionary. */
  lemma LastWinsOfSortedItems(rows: seq<Row>, m: map<Key, real>)
    requires IsSortedItems(rows, m)
    ensures LastWins(rows) == m
  {
    LastWinsMeaning(rows);
    AscendingKeysDistinct(rows, m);
    var d := LastWins(rows);
    forall k | k in m ensures d[k] == m[k] {
      var r :| r in rows && KeyOf(r) == k;
      var i :| 0 <= i < |rows| && rows[i] == r;
      assert IsLastWrite(rows, i);
    }
  }

  /** Only one sequence lists the items of a dictionary in strictly ascending key order. */
  lemma {:induction false} SortedItemsUnique(a: seq<Row>, b: seq<Row>, m: map<Key, real>)
    requires IsSortedItems(a, m) && IsSortedItems(b, m)
    ensures a == b
    decreases |a|
  {
    if a != [] {
      SameFirstRow(a, b, m);
      TailIsSortedItems(a, m);
      TailIsSortedItems(b, m);
      SortedItemsUnique(a[1..], b[1..], m - {KeyOf(a[0])});
      assert a == [a[0]] + a[1..] && b == [b[0]] + b[1..];
    }
  }

  lemma SameFirstRow(a: seq<Row>, b: seq<Row>, m: map<Key, real>)
    requires IsSortedItems(a, m) && IsSortedItems(b, m) && a != []
    ensures b != [] && a[0] == b[0]
  {
    var ka, kb := KeyOf(a[0]), KeyOf(b[0]);
    FirstKeyIsSmallest(a, m);
    FirstKeyIsSmallest(b, m);
    if ka != kb {
      KeyLessTransitive(ka, kb, ka);
      KeyLessIrreflexive(ka);
    }
  }

  lemma FirstKeyIsSmallest(rows: seq<Row>, m: map<Key, real>)
    requires IsSortedItems(rows, m) && rows != []
    ensures KeyOf(rows[0]) in m && m[KeyOf(rows[0])] == rows[0].tvl
    ensures forall k :: k in m ==> k == KeyOf(rows[0]) || KeyLess(KeyOf(rows[0]), k)
  {
    forall k | k in m ensures k == KeyOf(rows[0]) || KeyLess(KeyOf(rows[0]), k) {
      assert k in KeysOf(rows);
      var r :| r in rows && KeyOf(r) == k;
      var i :| 0 <= i < |rows| && rows[i] == r;
    }
  }

  /** Dropping the first (smallest) row leaves the sorted items of the rest of the dictionary. */
  lemma TailIsSortedItems(rows: seq<Row>, m: map<Key, real>)
    requires IsSortedItems(rows, m) && rows != []
    ensures IsSortedItems(rows[1..], m - {KeyOf(rows[0])})
  {
    var k := KeyOf(rows[0]);
    AscendingKeysDistinct(rows, m);
    TailKeys(rows, m.Keys);
    TailValues(rows, m);
    TailOrder(rows);
    var rest := m - {k};
    assert rest.Keys == m.Keys - {k};
    assert |rest.Keys| == |m.Keys| - 1;
  }

  lemma TailKeys(rows: seq<Row>, keys: set<Key>)
    requires rows != [] && KeysOf(rows) == keys
    requires forall i, j :: 0 <= i < j < |rows| ==> KeyOf(rows[i]) != KeyOf(rows[j])
    ensures KeysOf(rows[1..]) == keys - {KeyOf(rows[0])}
  {
    var k := KeyOf(rows[0]);
    var tail := rows[1..];
    assert rows == [rows[0]] + tail;
    KeysOfAppend([rows[0]], tail);
    assert KeysOf([rows[0]]) == {k} by {
      assert rows[0] in [rows[0]];
    }
  }

  lemma TailValues(rows: seq<Row>, m: map<Key, real>)
    requires rows != []
    requires forall i :: 0 <= i < |rows| ==> KeyOf(rows[i]) in m && m[KeyOf(rows[i])] == rows[i].tvl
    requires forall i, j :: 0 <= i < j < |rows| ==> KeyOf(rows[i]) != KeyOf(rows[j])
    ensures forall i :: 0 <= i < |rows| - 1 ==>
      KeyOf(rows[1..][i]) in m - {KeyOf(rows[0])} && (m - {KeyOf(rows[0])})[KeyOf(rows[1..][i])] == rows[1..][i].tvl
  {
    forall i | 0 <= i < |rows| - 1
      ensures KeyOf(rows[1..][i]) in m - {KeyOf(rows[0])} && (m - {KeyOf(rows[0])})[KeyOf(rows[1..][i])] == rows[1..][i].tvl
    {
      assert rows[1..][i] == rows[i + 1];
    }
  }

  lemma TailOrder(rows: seq<Row>)
    requires rows != []
    requires KeysAscending(rows)
    ensures forall i, j :: 0 <= i < j < |rows| - 1 ==> KeyLess(KeyOf(rows[1..][i]), KeyOf(rows[1..][j]))
  {
    forall i, j | 0 <= i < j < |rows| - 1 ensures KeyLess(KeyOf(rows[1..][i]), KeyOf(rows[1..][j])) {
      assert rows[1..][i] == rows[i + 1] && rows[1..][j] == rows[j + 1];
    }
  }

  /** Running the dedup-and-sort step on its own output gives that output back. */
  lemma DedupSortIdempotent(allRows: seq<Row>)
    ensures SortedItems(LastWins(SortedItems(LastWins(allRows)))) == SortedItems(LastWins(allRows))
  {
    var m := LastWins(allRows);
    LastWinsOfSortedItems(SortedItems(m), m);
  }

  /**
   * The final rows: one per key of `all_rows`, no more rows than `all_rows`,
   * keys pairwise distinct, and each carrying the value of the last row with its key.
   */
  lemma FinalRows(allRows: seq<Row>)
    ensures var rows := SortedItems(LastWins(allRows));
      && KeysOf(rows) == KeysOf(allRows)
      && |rows| <= |allRows|
      && (forall i, j :: 0 <= i < j < |rows| ==> KeyOf(rows[i]) != KeyOf(rows[j]))
      && (forall i, j ::
            (0 <= i < |allRows| && IsLastWrite(allRows, i) && 0 <= j < |rows| && KeyOf(rows[j]) == KeyOf(allRows[i]))
            ==> rows[j].tvl == allRows[i].tvl)
  {
    var m := LastWins(allRows);
    var rows := SortedItems(m);
    LastWinsMeaning(allRows);
    KeysOfSize(allRows);
    AscendingKeysDistinct(rows, m);
    assert |m| == |m.Keys|;
  }

  /** Sorted by key means sorted by day first: no later row has a smaller day label. */
  lemma SortedDaysNonDecreasing(rows: seq<Row>, i: int, j: int)
    requires KeysAscending(rows) && 0 <= i < j < |rows|
    ensures !StrLess(rows[j].day, rows[i].day)
  {
    if StrLess(rows[j].day, rows[i].day) {
      assert KeyLess(KeyOf(rows[i]), KeyOf(rows[j]));
      if StrLess(rows[i].day, rows[j].day) {
        StrLessTransitive(rows[i].day, rows[j].day, rows[i].day);
      }
      StrLessIrreflexive(rows[i].day);
    }
  }

  /**
   * Day labels sort chronologically, so a row listed before another is from
   * the same UTC day or an earlier one.
   */
  lemma SortedRowsChronological(rows: seq<Row>, i: int, j: int, t1: int, t2: int)
    requires KeysAscending(rows) && 0 <= i < j < |rows|
    requires InDateRange(t1) && InDateRange(t2)
    requires DayLabel(t1).value == rows[i].day && DayLabel(t2).value == rows[j].day
    ensures t1 / SecondsPerDay <= t2 / SecondsPerDay
  {
    SortedDaysNonDecreasing(rows, i, j);
    DayLabelOrder(t2, t1);
  }
}
