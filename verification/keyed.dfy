/** A database table as a sequence of rows, each carrying the value of the
    column the queries select on (`id`, `employee_id`, or the composite key
    `(employee_id, year, month)`) and the rest of the row.  The operations are
    those the route handlers issue: `SELECT ... WHERE key = $1`, `INSERT ...
    ON CONFLICT (key) DO UPDATE`, `UPDATE ... WHERE key = $1` and
    `DELETE ... WHERE key = $1`. */
module Keyed {
  import opened Common

  datatype Entry<K, V> = Entry(key: K, val: V)

  function Keys<K, V>(rows: seq<Entry<K, V>>): set<K> {
    set i | 0 <= i < |rows| :: rows[i].key
  }

  /** The table's unique (or primary-key) constraint on the key column. */
  ghost predicate UniqueKeys<K, V>(rows: seq<Entry<K, V>>) {
    forall i, j :: 0 <= i < |rows| && 0 <= j < |rows| && rows[i].key == rows[j].key ==> i == j
  }

  /** `SELECT ... WHERE key = k`, first row: None when no row has key `k`. */
  function Lookup<K(==), V>(rows: seq<Entry<K, V>>, k: K): (r: Option<V>)
    ensures r.None? <==> k !in Keys(rows)
    ensures r.Some? ==> exists i :: 0 <= i < |rows| && rows[i] == Entry(k, r.value)
  {
    if |rows| == 0 then None
    else if rows[0].key == k then Some(rows[0].val)
    else
      var r := Lookup(rows[1..], k);
      assert Keys(rows) == {rows[0].key} + Keys(rows[1..]) by {
        forall x | x in Keys(rows) ensures x in {rows[0].key} + Keys(rows[1..]) {
          var i :| 0 <= i < |rows| && rows[i].key == x;
          if i > 0 { assert rows[1..][i - 1].key == x; }
        }
      }
      assert r.Some? ==> exists i :: 0 <= i < |rows| && rows[i] == Entry(k, r.value) by {
        if r.Some? {
          var i :| 0 <= i < |rows[1..]| && rows[1..][i] == Entry(k, r.value);
          assert rows[i + 1] == Entry(k, r.value);
        }
      }
      r
  }

  /** `INSERT (k, v) ON CONFLICT (key) DO UPDATE SET ... = EXCLUDED...`:
      the row with key `k`, if any, takes value `v`; otherwise a row is added. */
  function Upsert<K(==), V>(rows: seq<Entry<K, V>>, k: K, v: V): (r: seq<Entry<K, V>>)
    ensures |rows| <= |r| <= |rows| + 1
    decreases |rows|
  {
    if |rows| == 0 then [Entry(k, v)]
    else if rows[0].key == k then [Entry(k, v)] + rows[1..]
    else
      [rows[0]] + Upsert(rows[1..], k, v)
  }

  /** Reading the key back after an upsert gives the new value. */
  lemma {:induction false} UpsertLookup<K, V>(rows: seq<Entry<K, V>>, k: K, v: V)
    ensures Lookup(Upsert(rows, k, v), k) == Some(v)
    decreases |rows|
  {
    if |rows| > 0 && rows[0].key != k {
      var r := Upsert(rows, k, v);
      assert r[1..] == Upsert(rows[1..], k, v);
      UpsertLookup(rows[1..], k, v);
    }
  }

  /** `UPDATE ... SET ... WHERE key = k`: every row with key `k` is rewritten by `f`. */
  function Update<K(==), V>(rows: seq<Entry<K, V>>, k: K, f: V -> V): (r: seq<Entry<K, V>>)
    ensures |r| == |rows|
    ensures forall i :: 0 <= i < |rows| ==>
              r[i] == if rows[i].key == k then Entry(k, f(rows[i].val)) else rows[i]
  {
    seq(|rows|, i requires 0 <= i < |rows| =>
      if rows[i].key == k then Entry(k, f(rows[i].val)) else rows[i])
  }

  /** `DELETE ... WHERE key = k`: the rows with another key, in their order. */
  function Remove<K(==), V>(rows: seq<Entry<K, V>>, k: K): (r: seq<Entry<K, V>>)
    ensures forall i :: 0 <= i < |r| ==> r[i].key != k
    ensures Keys(r) == Keys(rows) - {k}
    ensures |r| <= |rows|
  {
    if |rows| == 0 then []
    else
      var rest := Remove(rows[1..], k);
      KeysCons(rows);
      if rows[0].key == k then rest
      else
        KeysCons([rows[0]] + rest);
        assert ([rows[0]] + rest)[1..] == rest;
        [rows[0]] + rest
  }

  lemma KeysCons<K, V>(rows: seq<Entry<K, V>>)
    requires |rows| > 0
    ensures Keys(rows) == {rows[0].key} + Keys(rows[1..])
  {
    forall x | x in Keys(rows) ensures x in {rows[0].key} + Keys(rows[1..]) {
      var i :| 0 <= i < |rows| && rows[i].key == x;
      if i > 0 { assert rows[1..][i - 1].key == x; }
    }
  }

  /** After an upsert the key is present with the new value; no other key
      gains or loses a row. */
  lemma {:induction false} UpsertKeys<K, V>(rows: seq<Entry<K, V>>, k: K, v: V)
    ensures Keys(Upsert(rows, k, v)) == Keys(rows) + {k}
    decreases |rows|
  {
    if |rows| == 0 {
      assert Upsert(rows, k, v)[0].key == k;
    } else {
      KeysCons(rows);
      var r := Upsert(rows, k, v);
      KeysCons(r);
      if rows[0].key == k {
        assert r[1..] == rows[1..];
      } else {
        assert r[1..] == Upsert(rows[1..], k, v);
        UpsertKeys(rows[1..], k, v);
      }
    }
  }

  /** An upsert leaves what every other key reads unchanged. */
  lemma {:induction false} UpsertOther<K, V>(rows: seq<Entry<K, V>>, k: K, v: V, k': K)
    requires k' != k
    ensures Lookup(Upsert(rows, k, v), k') == Lookup(rows, k')
    decreases |rows|
  {
    if |rows| > 0 {
      var r := Upsert(rows, k, v);
      if rows[0].key == k {
        assert r[1..] == rows[1..];
      } else {
        assert r[1..] == Upsert(rows[1..], k, v);
        UpsertOther(rows[1..], k, v, k');
      }
    }
  }

  /** An upsert keeps the unique constraint, and the key then has exactly
      one row, which holds the new value. */
  lemma {:induction false} UpsertUnique<K, V>(rows: seq<Entry<K, V>>, k: K, v: V)
    requires UniqueKeys(rows)
    ensures UniqueKeys(Upsert(rows, k, v))
    ensures exists i :: 0 <= i < |Upsert(rows, k, v)| && Upsert(rows, k, v)[i] == Entry(k, v)
    ensures forall i, j :: 0 <= i < |Upsert(rows, k, v)| && 0 <= j < |Upsert(rows, k, v)| ==>
              (Upsert(rows, k, v)[i].key == k && Upsert(rows, k, v)[j].key == k ==> i == j)
    decreases |rows|
  {
    var r := Upsert(rows, k, v);
    if |rows| == 0 {
      assert r[0] == Entry(k, v);
    } else if rows[0].key == k {
      assert r[0] == Entry(k, v);
      forall i, j | 0 <= i < |r| && 0 <= j < |r| && r[i].key == r[j].key ensures i == j {
        assert r[i].key == rows[i].key && r[j].key == rows[j].key;
      }
    } else {
      var tail := rows[1..];
      assert UniqueKeys(tail) by {
        forall i, j | 0 <= i < |tail| && 0 <= j < |tail| && tail[i].key == tail[j].key ensures i == j {
          assert rows[i + 1].key == rows[j + 1].key;
        }
      }
      UpsertUnique(tail, k, v);
      UpsertKeys(tail, k, v);
      KeysCons(rows);
      var rt := Upsert(tail, k, v);
      assert r == [rows[0]] + rt;
      forall i | 0 <= i < |tail| ensures tail[i].key != rows[0].key {
        assert tail[i] == rows[i + 1];
      }
      assert rows[0].key !in Keys(rt);
      forall i, j | 0 <= i < |r| && 0 <= j < |r| ensures r[i].key == r[j].key ==> i == j {
        if i == 0 && j > 0 {
          assert r[j] == rt[j - 1];
          assert rt[j - 1].key in Keys(rt);
        } else if j == 0 && i > 0 {
          assert r[i] == rt[i - 1];
          assert rt[i - 1].key in Keys(rt);
        } else if i > 0 && j > 0 {
          assert r[i] == rt[i - 1] && r[j] == rt[j - 1];
        }
      }
      var w :| 0 <= w < |rt| && rt[w] == Entry(k, v);
      assert r[w + 1] == Entry(k, v);
    }
  }

  /** Repeating an upsert with the same key and value changes nothing. */
  lemma {:induction false} UpsertIdempotent<K, V>(rows: seq<Entry<K, V>>, k: K, v: V)
    ensures Upsert(Upsert(rows, k, v), k, v) == Upsert(rows, k, v)
    decreases |rows|
  {
    var r := Upsert(rows, k, v);
    if |rows| == 0 {
      assert r == [Entry(k, v)];
      assert Upsert(r, k, v) == [Entry(k, v)] + r[1..];
    } else if rows[0].key == k {
      assert Upsert(r, k, v) == [Entry(k, v)] + r[1..];
      assert r[1..] == rows[1..];
    } else {
      assert r[1..] == Upsert(rows[1..], k, v);
      UpsertIdempotent(rows[1..], k, v);
      assert Upsert(r, k, v) == [rows[0]] + Upsert(r[1..], k, v);
    }
  }

  /** Removing a key nobody holds leaves the table unchanged. */
  lemma {:induction false} RemoveAbsent<K, V>(rows: seq<Entry<K, V>>, k: K)
    requires k !in Keys(rows)
    ensures Remove(rows, k) == rows
    decreases |rows|
  {
    if |rows| > 0 {
      KeysCons(rows);
      RemoveAbsent(rows[1..], k);
      assert rows == [rows[0]] + rows[1..];
    }
  }

  /** Removing a key that has exactly one row removes exactly that row:
      the rows before and after it stay, in order. */
  lemma {:induction false} RemoveOne<K, V>(rows: seq<Entry<K, V>>, k: K, i: int)
    requires UniqueKeys(rows)
    requires 0 <= i < |rows| && rows[i].key == k
    ensures Remove(rows, k) == rows[..i] + rows[i + 1..]
    decreases |rows|
  {
    var tail := rows[1..];
    assert UniqueKeys(tail) by {
      forall a, b | 0 <= a < |tail| && 0 <= b < |tail| && tail[a].key == tail[b].key ensures a == b {
        assert rows[a + 1].key == rows[b + 1].key;
      }
    }
    if i == 0 {
      forall j | 0 <= j < |tail| ensures tail[j].key != k {
        assert tail[j] == rows[j + 1];
      }
      RemoveAbsent(tail, k);
    } else {
      assert rows[0].key != k;
      RemoveOne(tail, k, i - 1);
      assert rows[..i] == [rows[0]] + tail[..i - 1];
      assert rows[i + 1..] == tail[i..];
    }
  }

  /** Appending a row under a key nobody holds keeps the unique constraint. */
  lemma AppendFresh<K, V>(rows: seq<Entry<K, V>>, k: K, v: V)
    requires UniqueKeys(rows) && k !in Keys(rows)
    ensures UniqueKeys(rows + [Entry(k, v)])
    ensures Keys(rows + [Entry(k, v)]) == Keys(rows) + {k}
  {
    var r := rows + [Entry(k, v)];
    forall i, j | 0 <= i < |r| && 0 <= j < |r| ensures r[i].key == r[j].key ==> i == j {
      if i < |rows| && j == |rows| { assert rows[i].key in Keys(rows); }
      if j < |rows| && i == |rows| { assert rows[j].key in Keys(rows); }
    }
    forall x | x in Keys(r) ensures x in Keys(rows) + {k} {
      var i :| 0 <= i < |r| && r[i].key == x;
      if i < |rows| { assert rows[i].key in Keys(rows); }
    }
    forall x | x in Keys(rows) + {k} ensures x in Keys(r) {
      if x == k { assert r[|rows|].key == k; }
      else { var i :| 0 <= i < |rows| && rows[i].key == x; assert r[i].key == x; }
    }
  }

  /** `UPDATE` keeps the keys, so it keeps the unique constraint. */
  lemma UpdateKeepsKeys<K, V>(rows: seq<Entry<K, V>>, k: K, f: V -> V)
    ensures Keys(Update(rows, k, f)) == Keys(rows)
    ensures UniqueKeys(rows) ==> UniqueKeys(Update(rows, k, f))
  {
    var r := Update(rows, k, f);
    assert forall i :: 0 <= i < |rows| ==> r[i].key == rows[i].key;
    forall x | x in Keys(r) ensures x in Keys(rows) {
      var i :| 0 <= i < |r| && r[i].key == x;
      assert rows[i].key == x;
    }
    forall x | x in Keys(rows) ensures x in Keys(r) {
      var i :| 0 <= i < |rows| && rows[i].key == x;
      assert r[i].key == x;
    }
  }

  /** After `UPDATE ... WHERE key = k` the key reads `f` of what it read before. */
  lemma UpdateLookup<K, V>(rows: seq<Entry<K, V>>, k: K, f: V -> V)
    requires UniqueKeys(rows)
    ensures Lookup(Update(rows, k, f), k) ==
              match Lookup(rows, k) case None => None case Some(v) => Some(f(v))
  {
    var r := Update(rows, k, f);
    UpdateKeepsKeys(rows, k, f);
    match Lookup(rows, k)
    case None =>
    case Some(v) =>
      var i :| 0 <= i < |rows| && rows[i] == Entry(k, v);
      var w := Lookup(r, k).value;
      var j :| 0 <= j < |r| && r[j] == Entry(k, w);
      assert rows[j].key == k;
  }

  /** `UPDATE ... WHERE key = k` leaves what every other key reads unchanged. */
  lemma {:induction false} UpdateOtherKey<K, V>(rows: seq<Entry<K, V>>, k: K, f: V -> V, k': K)
    requires k' != k
    ensures Lookup(Update(rows, k, f), k') == Lookup(rows, k')
    decreases |rows|
  {
    if |rows| > 0 {
      var r := Update(rows, k, f);
      assert r[1..] == Update(rows[1..], k, f);
      UpdateOtherKey(rows[1..], k, f, k');
    }
  }

  /** `DELETE` keeps the unique constraint. */
  lemma {:induction false} RemoveKeepsUnique<K, V>(rows: seq<Entry<K, V>>, k: K)
    requires UniqueKeys(rows)
    ensures UniqueKeys(Remove(rows, k))
    decreases |rows|
  {
    if |rows| > 0 {
      var tail := rows[1..];
      assert UniqueKeys(tail) by {
        forall a, b | 0 <= a < |tail| && 0 <= b < |tail| && tail[a].key == tail[b].key ensures a == b {
          assert rows[a + 1].key == rows[b + 1].key;
        }
      }
      RemoveKeepsUnique(tail, k);
      if rows[0].key != k {
        var rest := Remove(tail, k);
        var r := [rows[0]] + rest;
        assert Remove(rows, k) == r;
        forall i | 0 <= i < |tail| ensures tail[i].key != rows[0].key {
          assert tail[i] == rows[i + 1];
        }
        assert rows[0].key !in Keys(rest);
        forall i, j | 0 <= i < |r| && 0 <= j < |r| ensures r[i].key == r[j].key ==> i == j {
          if i == 0 && j > 0 {
            assert r[j] == rest[j - 1];
            assert rest[j - 1].key in Keys(rest);
          } else if j == 0 && i > 0 {
            assert r[i] == rest[i - 1];
            assert rest[i - 1].key in Keys(rest);
          } else if i > 0 && j > 0 {
            assert r[i] == rest[i - 1] && r[j] == rest[j - 1];
          }
        }
      }
    }
  }

  /** `DELETE ... WHERE key = k` leaves what every other key reads unchanged. */
  lemma {:induction false} RemoveLookupOther<K, V>(rows: seq<Entry<K, V>>, k: K, k': K)
    requires k' != k
    ensures Lookup(Remove(rows, k), k') == Lookup(rows, k')
    decreases |rows|
  {
    if |rows| > 0 {
      RemoveLookupOther(rows[1..], k, k');
      if rows[0].key != k {
        assert ([rows[0]] + Remove(rows[1..], k))[1..] == Remove(rows[1..], k);
      }
    }
  }
}
