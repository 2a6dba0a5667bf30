/**
 * The few pieces of SQLite semantics the model relies on: AUTOINCREMENT
 * rowids and the order in which a table scan visits them, the BINARY collation that ORDER BY uses on TEXT,
 * `LIKE '%x%'`, and the three-valued `IN` that CHECK constraints evaluate.
 */
module Sql {
  import opened Results

  // ---------------------------------------------------------------------------
  // Tables with INTEGER PRIMARY KEY AUTOINCREMENT

  /**
   * A table whose rows are keyed by rowid. `lastId` is the table's entry in
   * sqlite_sequence: the largest rowid ever issued, which AUTOINCREMENT keeps
   * even after rows are gone.
   */
  datatype Table<T> = Table(rows: map<int, T>, lastId: nat)
  {
    /** Every rowid in use was issued, and rowids start at 1. */
    predicate Valid()
    {
      forall id :: id in rows ==> 1 <= id <= lastId
    }

    /**
     * INSERT: the new row gets the rowid one above the largest ever issued,
     * hence above every rowid in use; no existing row changes, and the new
     * rowid becomes the last issued.
     */
    function Insert(row: T): (r: (Table<T>, int))
      requires Valid()
      ensures r.0.Valid()
      ensures r.1 == lastId + 1 && r.1 !in rows
      ensures forall id :: id in rows ==> id < r.1
      ensures r.0.rows == rows[r.1 := row] && r.0.lastId == r.1
    {
      (Table(rows[lastId + 1 := row], lastId + 1), lastId + 1)
    }

    /** The rowids a full scan visits, in the order it visits them. */
    function Scan(): (ids: seq<int>)
      requires Valid()
      ensures forall id :: id in rows <==> id in ids
      ensures StrictlyAscending(ids)
    {
      IdsUpTo(rows, lastId)
    }
  }

  /** Inserting `rows` one after another, in order. */
  function InsertAll<T>(t: Table<T>, rows: seq<T>): (r: Table<T>)
    requires t.Valid()
    ensures r.Valid()
    ensures r.lastId == t.lastId + |rows|
    decreases |rows|
  {
    if rows == [] then t
    else InsertAll(t, rows[..|rows| - 1]).Insert(rows[|rows| - 1]).0
  }

  /** One more row inserted after the first `i`. */
  lemma InsertAllStep<T>(t: Table<T>, rows: seq<T>, i: int)
    requires t.Valid()
    requires 0 <= i < |rows|
    ensures InsertAll(t, rows[..i + 1]) == InsertAll(t, rows[..i]).Insert(rows[i]).0
  {
    assert rows[..i + 1][..i] == rows[..i];
  }

  /**
   * After inserting `rows` one after another, the k-th of them has rowid
   * `lastId + k + 1`, and the rows already present stay as they were.
   */
  lemma {:induction false} InsertAllRows<T>(t: Table<T>, rows: seq<T>)
    requires t.Valid()
    ensures var r := InsertAll(t, rows);
      && (forall id :: id in r.rows <==> id in t.rows || t.lastId < id <= t.lastId + |rows|)
      && (forall id :: id in t.rows ==> r.rows[id] == t.rows[id])
      && (forall k :: 0 <= k < |rows| ==> r.rows[t.lastId + k + 1] == rows[k])
    decreases |rows|
  {
    if rows != [] {
      var init := rows[..|rows| - 1];
      InsertAllRows(t, init);
      forall k | 0 <= k < |init| ensures init[k] == rows[k] {
      }
    }
  }

  /** A row present before a run of inserts is still there, unchanged, after it. */
  lemma InsertAllKeeps<T>(t: Table<T>, rows: seq<T>, id: int)
    requires t.Valid()
    requires id in t.rows
    ensures id in InsertAll(t, rows).rows && InsertAll(t, rows).rows[id] == t.rows[id]
  {
    InsertAllRows(t, rows);
  }

  /** The k-th inserted row sits at rowid `lastId + k + 1`. */
  lemma InsertAllPlaces<T>(t: Table<T>, rows: seq<T>, k: int)
    requires t.Valid()
    requires 0 <= k < |rows|
    ensures t.lastId + k + 1 in InsertAll(t, rows).rows
    ensures InsertAll(t, rows).rows[t.lastId + k + 1] == rows[k]
  {
    InsertAllRows(t, rows);
  }

  predicate StrictlyAscending(ids: seq<int>)
  {
    forall i, j :: 0 <= i < j < |ids| ==> ids[i] < ids[j]
  }

  /** The keys of `rows` in 1..n, ascending. */
  function IdsUpTo<T>(rows: map<int, T>, n: int): (ids: seq<int>)
    ensures forall id :: id in ids <==> id in rows && 1 <= id <= n
    ensures StrictlyAscending(ids)
    ensures forall id :: id in ids ==> id <= n
    decreases n
  {
    if n < 1 then []
    else
      var before := IdsUpTo(rows, n - 1);
      assert forall i :: 0 <= i < |before| ==> before[i] < n by {
        forall i | 0 <= i < |before|
          ensures before[i] < n
        {
          var id := before[i];
          assert id in before;
        }
      }
      var last := if n in rows then [n] else [];
      assert forall id :: id in last <==> id == n && n in rows;
      before + last
  }

  /** A scan up to `n` depends only on which ids in 1..n the table holds, not on their rows. */
  lemma {:induction false} IdsUpToAgree<T>(a: map<int, T>, b: map<int, T>, n: int)
    requires forall i :: 1 <= i <= n ==> (i in a <==> i in b)
    ensures IdsUpTo(a, n) == IdsUpTo(b, n)
    decreases n
  {
    if n >= 1 {
      IdsUpToAgree(a, b, n - 1);
    }
  }

  /** Scanning further than the largest id adds nothing. */
  lemma {:induction false} IdsUpToNothingAbove<T>(rows: map<int, T>, m: int, n: int)
    requires m <= n
    requires forall i :: m < i <= n ==> i !in rows
    ensures IdsUpTo(rows, n) == IdsUpTo(rows, m)
    decreases n - m
  {
    if n > m {
      IdsUpToNothingAbove(rows, m, n - 1);
    }
  }

  predicate Distinct(ids: seq<int>)
  {
    forall i, j :: 0 <= i < j < |ids| ==> ids[i] != ids[j]
  }

  /** WHERE: the rowids among `ids` whose rows satisfy `keep`, in the same order. */
  function Select<T>(rows: map<int, T>, ids: seq<int>, keep: T -> bool): (r: seq<int>)
    requires forall id :: id in ids ==> id in rows
    ensures forall id :: id in r <==> id in ids && keep(rows[id])
    ensures StrictlyAscending(ids) ==> StrictlyAscending(r)
  {
    if ids == [] then []
    else
      var rest := Select(rows, ids[1..], keep);
      assert ids[0] in ids;
      assert StrictlyAscending(ids) ==> StrictlyAscending(ids[1..]) && forall k :: 0 <= k < |rest| ==> ids[0] < rest[k] by {
        if StrictlyAscending(ids) {
          forall k | 0 <= k < |rest| ensures ids[0] < rest[k] {
            assert rest[k] in ids[1..];
            var m :| 0 <= m < |ids[1..]| && ids[1..][m] == rest[k];
            assert ids[m + 1] == rest[k];
          }
        }
      }
      (if keep(rows[ids[0]]) then [ids[0]] else []) + rest
  }

  /** A reordering of a list without repeats has no repeats. */
  lemma DistinctPermutation(a: seq<int>, b: seq<int>)
    requires Distinct(a) && multiset(a) == multiset(b)
    ensures Distinct(b)
  {
    forall i, j | 0 <= i < j < |b|
      ensures b[i] != b[j]
    {
      if b[i] == b[j] {
        var x := b[i];
        assert b == b[..i] + [x] + b[i + 1..j] + [x] + b[j + 1..];
        assert multiset(b)[x] >= 2;
        AtMostOnce(a, x);
      }
    }
  }

  lemma {:induction false} AtMostOnce(a: seq<int>, x: int)
    requires Distinct(a)
    ensures multiset(a)[x] <= 1
  {
    if a != [] {
      assert Distinct(a[1..]) by {
        forall i, j | 0 <= i < j < |a[1..]| ensures a[1..][i] != a[1..][j] {
          assert a[1..][i] == a[i + 1] && a[1..][j] == a[j + 1];
        }
      }
      AtMostOnce(a[1..], x);
      assert a == [a[0]] + a[1..];
      if a[0] == x {
        assert x !in a[1..] by {
          forall k | 0 <= k < |a[1..]| ensures a[1..][k] != x {
            assert a[1..][k] == a[k + 1];
          }
        }
      }
    }
  }

  /** A list without repeats has as many elements as the set of its elements. */
  lemma {:induction false} DistinctCardinality(ids: seq<int>)
    requires Distinct(ids)
    ensures |set id | id in ids| == |ids|
  {
    if ids != [] {
      var rest := ids[1..];
      assert Distinct(rest) by {
        forall i, j | 0 <= i < j < |rest| ensures rest[i] != rest[j] {
          assert rest[i] == ids[i + 1] && rest[j] == ids[j + 1];
        }
      }
      DistinctCardinality(rest);
      assert ids[0] !in rest by {
        forall k | 0 <= k < |rest| ensures rest[k] != ids[0] {
          assert rest[k] == ids[k + 1];
        }
      }
      assert ids == [ids[0]] + rest;
      assert (set id | id in ids) == (set id | id in rest) + {ids[0]};
    }
  }

  // ---------------------------------------------------------------------------
  // BINARY collation on TEXT

  /**
   * `a <= b` under SQLite's BINARY collation: memcmp of the UTF-8 encodings,
   * which orders strings as their code points do, a proper prefix first.
   */
  predicate TextLe(a: string, b: string)
  {
    if a == [] then true
    else if b == [] then false
    else if a[0] != b[0] then a[0] < b[0]
    else TextLe(a[1..], b[1..])
  }

  lemma {:induction false} TextLeTotal(a: string, b: string)
    ensures TextLe(a, b) || TextLe(b, a)
  {
    if a != [] && b != [] && a[0] == b[0] {
      TextLeTotal(a[1..], b[1..]);
    }
  }

  lemma {:induction false} TextLeAntisymmetric(a: string, b: string)
    requires TextLe(a, b) && TextLe(b, a)
    ensures a == b
  {
    if a != [] && b != [] {
      TextLeAntisymmetric(a[1..], b[1..]);
      assert a == [a[0]] + a[1..] && b == [b[0]] + b[1..];
    }
  }

  lemma {:induction false} TextLeTransitive(a: string, b: string, c: string)
    requires TextLe(a, b) && TextLe(b, c)
    ensures TextLe(a, c)
  {
    if a != [] && b != [] && c != [] && a[0] == b[0] && b[0] == c[0] {
      TextLeTransitive(a[1..], b[1..], c[1..]);
    }
  }

  // ---------------------------------------------------------------------------
  // ORDER BY ... DESC

  /** Every id names a row, and along `ids` the key never increases. */
  predicate Descending<T>(rows: map<int, T>, ids: seq<int>, key: T -> string)
  {
    && (forall k :: 0 <= k < |ids| ==> ids[k] in rows)
    && (forall i, j :: 0 <= i < j < |ids| ==> TextLe(key(rows[ids[j]]), key(rows[ids[i]])))
  }

  /**
   * `ORDER BY key DESC` over the rows named by `ids`, by insertion; rows with
   * equal keys keep their relative order.
   */
  function OrderByDesc<T>(rows: map<int, T>, ids: seq<int>, key: T -> string): (r: seq<int>)
    requires forall id :: id in ids ==> id in rows
    ensures multiset(r) == multiset(ids)
    ensures forall id :: id in r <==> id in ids
  {
    if ids == [] then []
    else
      var first := ids[0];
      assert first in ids && ids == [first] + ids[1..];
      InsertDesc(rows, first, OrderByDesc(rows, ids[1..], key), key)
  }

  function InsertDesc<T>(rows: map<int, T>, x: int, sorted: seq<int>, key: T -> string): (r: seq<int>)
    requires x in rows
    requires forall id :: id in sorted ==> id in rows
    ensures multiset(r) == multiset(sorted) + multiset{x}
    ensures forall id :: id in r <==> id in sorted || id == x
  {
    if sorted == [] then [x]
    else
      var first := sorted[0];
      assert first in sorted && sorted == [first] + sorted[1..];
      if TextLe(key(rows[first]), key(rows[x])) then [x] + sorted
      else [first] + InsertDesc(rows, x, sorted[1..], key)
  }

  /** A row whose key is at least every key of a descending list may go first. */
  lemma ConsKeepsOrder<T>(rows: map<int, T>, y: int, tail: seq<int>, key: T -> string)
    requires y in rows
    requires Descending(rows, tail, key)
    requires forall k :: 0 <= k < |tail| ==> TextLe(key(rows[tail[k]]), key(rows[y]))
    ensures Descending(rows, [y] + tail, key)
  {
    var r := [y] + tail;
    forall i, j | 0 <= i < j < |r|
      ensures TextLe(key(rows[r[j]]), key(rows[r[i]]))
    {
      assert r[j] == tail[j - 1];
      if i > 0 {
        assert r[i] == tail[i - 1];
      }
    }
  }

  lemma DropFirstKeepsOrder<T>(rows: map<int, T>, ids: seq<int>, key: T -> string)
    requires ids != []
    requires Descending(rows, ids, key)
    ensures Descending(rows, ids[1..], key)
  {
    var rest := ids[1..];
    forall i, j | 0 <= i < j < |rest|
      ensures TextLe(key(rows[rest[j]]), key(rows[rest[i]]))
    {
      assert rest[i] == ids[i + 1] && rest[j] == ids[j + 1];
    }
  }

  lemma {:induction false} InsertDescKeepsOrder<T>(rows: map<int, T>, x: int, sorted: seq<int>, key: T -> string)
    requires x in rows
    requires forall id :: id in sorted ==> id in rows
    requires Descending(rows, sorted, key)
    ensures Descending(rows, InsertDesc(rows, x, sorted, key), key)
  {
    if sorted != [] {
      var first := sorted[0];
      assert first in sorted;
      if TextLe(key(rows[first]), key(rows[x])) {
        forall k | 0 <= k < |sorted|
          ensures TextLe(key(rows[sorted[k]]), key(rows[x]))
        {
          if k > 0 {
            TextLeTransitive(key(rows[sorted[k]]), key(rows[first]), key(rows[x]));
          }
        }
        ConsKeepsOrder(rows, x, sorted, key);
      } else {
        var rest := sorted[1..];
        DropFirstKeepsOrder(rows, sorted, key);
        InsertDescKeepsOrder(rows, x, rest, key);
        var tail := InsertDesc(rows, x, rest, key);
        TextLeTotal(key(rows[first]), key(rows[x]));
        forall k | 0 <= k < |tail|
          ensures TextLe(key(rows[tail[k]]), key(rows[first]))
        {
          var id := tail[k];
          assert id in tail;
          if id != x {
            var m :| 0 <= m < |rest| && rest[m] == id;
            assert sorted[m + 1] == id;
          }
        }
        ConsKeepsOrder(rows, first, tail, key);
      }
    }
  }

  lemma {:induction false} OrderByDescIsDescending<T>(rows: map<int, T>, ids: seq<int>, key: T -> string)
    requires forall id :: id in ids ==> id in rows
    ensures Descending(rows, OrderByDesc(rows, ids, key), key)
  {
    if ids != [] {
      assert ids[0] in ids;
      OrderByDescIsDescending(rows, ids[1..], key);
      InsertDescKeepsOrder(rows, ids[0], OrderByDesc(rows, ids[1..], key), key);
    }
  }

  /** LIMIT n: a prefix of the ordered list, no longer than n, short only when the list is. */
  function Limited(all: seq<int>, n: nat): (ids: seq<int>)
    ensures |ids| <= n && |ids| <= |all|
    ensures ids == all[..|ids|]
    ensures |ids| < n ==> ids == all
  {
    if |all| <= n then all else all[..n]
  }

  /** LIMIT n: an id of an ordered list that falls beyond the first n has a key no greater than any kept one. */
  lemma BeyondLimitIsNoGreater<T>(rows: map<int, T>, all: seq<int>, key: T -> string, n: int, id: int, k: int)
    requires Descending(rows, all, key)
    requires 0 <= k < n <= |all|
    requires id in all && id !in all[..n]
    ensures id in rows && all[k] in rows
    ensures TextLe(key(rows[id]), key(rows[all[k]]))
  {
    var m :| 0 <= m < |all| && all[m] == id;
  }

  /**
   * `SELECT id FROM t WHERE keep ORDER BY key DESC`: every row satisfying
   * `keep` exactly once, no other row, the key never increasing.
   */
  function SelectOrdered<T>(t: Table<T>, keep: T -> bool, key: T -> string): (r: seq<int>)
    requires t.Valid()
    ensures forall id :: id in r <==> id in t.rows && keep(t.rows[id])
    ensures Distinct(r)
    ensures Descending(t.rows, r, key)
  {
    var scan := t.Scan();
    var selected := Select(t.rows, scan, keep);
    var r := OrderByDesc(t.rows, selected, key);
    OrderByDescIsDescending(t.rows, selected, key);
    DistinctPermutation(selected, r);
    r
  }

  // ---------------------------------------------------------------------------
  // LIKE '%x%'

  /**
   * `text LIKE '%' || pattern || '%'` read as plain containment: `pattern`
   * occurs somewhere in `text`.
   */
  predicate Contains(text: string, pattern: string)
  {
    exists i :: 0 <= i <= |text| - |pattern| && OccursAt(text, pattern, i)
  }

  /** `pattern` occurs in `text` starting at position `i`. */
  predicate OccursAt(text: string, pattern: string, i: int)
    requires 0 <= i <= |text| - |pattern|
  {
    text[i..i + |pattern|] == pattern
  }

  /** Every text contains itself and the empty pattern. */
  lemma ContainsItself(text: string)
    ensures Contains(text, text)
    ensures Contains(text, "")
  {
    assert OccursAt(text, text, 0);
    assert OccursAt(text, "", 0);
  }

  // ---------------------------------------------------------------------------
  // CHECK constraints: three-valued IN

  /** SQL's three-valued truth. */
  datatype Truth = True | False | Unknown

  /**
   * `v IN (list)` where NULL is `None`. An empty list makes it false, even
   * for a NULL `v`. Otherwise it is true when some non-NULL member equals a
   * non-NULL `v`; unknown if `v` is NULL or the list holds a NULL; and false
   * only when neither.
   */
  function In(v: Option<string>, list: seq<Option<string>>): (r: Truth)
    ensures r == True <==> v.Some? && v in list
    ensures r == False <==> list == [] || (v.Some? && v !in list && None !in list)
    ensures r == Unknown <==> list != [] && (v.None? || (v !in list && None in list))
  {
    if list == [] then False
    else if v.None? then Unknown
    else if v in list then True
    else if None in list then Unknown
    else False
  }

  /** A CHECK constraint rejects a row only when its expression is false. */
  predicate CheckPasses(t: Truth)
  {
    t != False
  }
}
