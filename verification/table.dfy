/** A database table as the sequence of its rows in rowid order. Every store
    addresses rows through a key function (`id`, `key`, `(user_key, lesson_id)`),
    exactly as its SQL `WHERE` clauses do. */
module Table {
  import opened Common

  /** `SELECT * … WHERE key = k` followed by `rows[0]`: the first row with key `k`. */
  function Find<R, K(==)>(rows: seq<R>, key: R -> K, k: K): (r: Option<R>)
    ensures r.Some? ==> r.value in rows && key(r.value) == k
    ensures r.None? <==> forall i :: 0 <= i < |rows| ==> key(rows[i]) != k
  {
    if |rows| == 0 then None
    else if key(rows[0]) == k then Some(rows[0])
    else Find(rows[1..], key, k)
  }

  /** No two rows share a key: a UNIQUE constraint (or a primary key). */
  ghost predicate UniqueKeys<R, K>(rows: seq<R>, key: R -> K) {
    forall i, j :: 0 <= i < j < |rows| ==> key(rows[i]) != key(rows[j])
  }

  /** Under a UNIQUE constraint, a row is found by its own key. */
  lemma {:induction false} FindUnique<R, K>(rows: seq<R>, key: R -> K, i: nat)
    requires UniqueKeys(rows, key) && i < |rows|
    ensures Find(rows, key, key(rows[i])) == Some(rows[i])
  {
    if i > 0 {
      assert key(rows[0]) != key(rows[i]);
      assert rows[1..][i - 1] == rows[i];
      FindUnique(rows[1..], key, i - 1);
    }
  }

  /** `UPDATE … SET … WHERE key = k`: every row with key `k` is rewritten by `f`. */
  function Update<R, K(==)>(rows: seq<R>, key: R -> K, k: K, f: R -> R): (r: seq<R>)
    ensures |r| == |rows|
    ensures forall i :: 0 <= i < |rows| && key(rows[i]) == k ==> r[i] == f(rows[i])
    ensures forall i :: 0 <= i < |rows| && key(rows[i]) != k ==> r[i] == rows[i]
  {
    seq(|rows|, i requires 0 <= i < |rows| => if key(rows[i]) == k then f(rows[i]) else rows[i])
  }

  /** An update that keeps keys finds the rewritten row under `k` and leaves
      every other key's row alone. */
  lemma {:induction false} FindAfterUpdate<R, K>(rows: seq<R>, key: R -> K, k: K, f: R -> R, k': K)
    requires forall x :: key(f(x)) == key(x)
    ensures k' == k ==>
      Find(Update(rows, key, k, f), key, k') == (match Find(rows, key, k) case Some(x) => Some(f(x)) case None => None)
    ensures k' != k ==> Find(Update(rows, key, k, f), key, k') == Find(rows, key, k')
  {
    if |rows| > 0 {
      assert Update(rows, key, k, f)[1..] == Update(rows[1..], key, k, f);
      FindAfterUpdate(rows[1..], key, k, f, k');
    }
  }

  lemma UpdateKeepsKeys<R, K>(rows: seq<R>, key: R -> K, k: K, f: R -> R)
    requires forall x :: key(f(x)) == key(x)
    ensures UniqueKeys(rows, key) ==> UniqueKeys(Update(rows, key, k, f), key)
  {
  }

  /** Rewriting twice by a key-preserving involution restores the rows. */
  lemma UpdateTwice<R, K>(rows: seq<R>, key: R -> K, k: K, f: R -> R)
    requires forall x :: key(f(x)) == key(x) && f(f(x)) == x
    ensures Update(Update(rows, key, k, f), key, k, f) == rows
  {
    var once := Update(rows, key, k, f);
    var twice := Update(once, key, k, f);
    forall i | 0 <= i < |rows|
      ensures twice[i] == rows[i]
    {
      assert key(once[i]) == key(rows[i]);
    }
  }

  /** `INSERT`: the new row is appended in rowid order. */
  lemma {:induction false} FindAfterAppend<R, K>(rows: seq<R>, key: R -> K, x: R, k': K)
    ensures key(x) != k' ==> Find(rows + [x], key, k') == Find(rows, key, k')
    ensures Find(rows, key, key(x)).None? ==> Find(rows + [x], key, key(x)) == Some(x)
  {
    if |rows| > 0 {
      assert (rows + [x])[1..] == rows[1..] + [x];
      FindAfterAppend(rows[1..], key, x, k');
    }
  }

  /** `DELETE … WHERE key = k`: the rows with key `k` disappear, the others keep their order. */
  function Delete<R(!new), K(==)>(rows: seq<R>, key: R -> K, k: K): (r: seq<R>)
    ensures |r| <= |rows|
    ensures forall x :: x in r <==> x in rows && key(x) != k
    ensures Find(rows, key, k).None? ==> r == rows
  {
    if |rows| == 0 then []
    else if key(rows[0]) == k then Delete(rows[1..], key, k)
    else [rows[0]] + Delete(rows[1..], key, k)
  }

  /** Deleting `k` leaves no row under `k` and every other key's row as it was. */
  lemma {:induction false} FindAfterDelete<R(!new), K>(rows: seq<R>, key: R -> K, k: K, k': K)
    ensures k' == k ==> Find(Delete(rows, key, k), key, k').None?
    ensures k' != k ==> Find(Delete(rows, key, k), key, k') == Find(rows, key, k')
  {
    if |rows| > 0 {
      FindAfterDelete(rows[1..], key, k, k');
    }
  }

  /** A relation that holds between every earlier and later row still holds after a delete
      (deleting keeps the survivors in order). */
  ghost predicate Chained<R>(rows: seq<R>, before: (R, R) -> bool) {
    forall i, j :: 0 <= i < j < |rows| ==> before(rows[i], rows[j])
  }

  lemma {:induction false} DeleteKeepsChained<R(!new), K>(rows: seq<R>, key: R -> K, k: K, before: (R, R) -> bool)
    requires Chained(rows, before)
    ensures Chained(Delete(rows, key, k), before)
  {
    if |rows| > 0 {
      assert Chained(rows[1..], before);
      DeleteKeepsChained(rows[1..], key, k, before);
      var d := Delete(rows[1..], key, k);
      forall j | 0 <= j < |d|
        ensures before(rows[0], d[j])
      {
        assert d[j] in rows[1..];
      }
    }
  }

  /** A UNIQUE constraint on any column still holds after a delete. */
  lemma {:induction false} DeleteKeepsUnique<R(!new), K, K2>(rows: seq<R>, key: R -> K, k: K, unique: R -> K2)
    requires UniqueKeys(rows, unique)
    ensures UniqueKeys(Delete(rows, key, k), unique)
  {
    if |rows| > 0 {
      DeleteKeepsUnique(rows[1..], key, k, unique);
      var d := Delete(rows[1..], key, k);
      forall j | 0 <= j < |d|
        ensures unique(rows[0]) != unique(d[j])
      {
        assert d[j] in rows[1..];
        var m :| 0 <= m < |rows[1..]| && rows[1..][m] == d[j];
        assert rows[m + 1] == d[j];
      }
    }
  }

  /** `SELECT … WHERE p`: the rows satisfying `p`, in rowid order. */
  function Filter<R(!new)>(rows: seq<R>, p: R -> bool): (r: seq<R>)
    ensures |r| <= |rows|
    ensures forall x :: x in r <==> x in rows && p(x)
  {
    if |rows| == 0 then []
    else if p(rows[0]) then [rows[0]] + Filter(rows[1..], p)
    else Filter(rows[1..], p)
  }

  lemma {:induction false} FilterKeepsUnique<R(!new), K>(rows: seq<R>, p: R -> bool, key: R -> K)
    requires UniqueKeys(rows, key)
    ensures UniqueKeys(Filter(rows, p), key)
  {
    if |rows| > 0 {
      FilterKeepsUnique(rows[1..], p, key);
      var f := Filter(rows[1..], p);
      forall j | 0 <= j < |f|
        ensures key(rows[0]) != key(f[j])
      {
        assert f[j] in rows[1..];
        var m :| 0 <= m < |rows[1..]| && rows[1..][m] == f[j];
        assert rows[m + 1] == f[j];
      }
    }
  }
}
