/** One table of the relational store, as the entity manager presents it. */
module Tables {
  import opened Wrappers
  import opened Seqs

  /**
   * Rows keyed by primary key, together with the order in which a plain
   * `SELECT e FROM E e` returns them (insertion order).
   */
  datatype Table<E> = Table(rows: map<string, E>, order: seq<string>)

  /** Every key is listed exactly once in `order`, and `order` lists only keys. */
  ghost predicate WellFormed<E>(t: Table<E>) {
    Distinct(t.order) && forall k :: k in t.rows <==> k in t.order
  }

  function Empty<E>(): (t: Table<E>)
    ensures WellFormed(t) && t.rows == map[] && t.order == []
  {
    Table(map[], [])
  }

  /** `em.find`: the row with key `k`, if any. */
  function Get<E>(t: Table<E>, k: string): (r: Option<E>)
    ensures r.Some? <==> k in t.rows
    ensures r.Some? ==> r.value == t.rows[k]
  {
    if k in t.rows then Some(t.rows[k]) else None
  }

  /** `persist`, `merge` and repository `save`: insert a new key at the end, or overwrite in place. */
  function Put<E>(t: Table<E>, k: string, e: E): (r: Table<E>)
    requires WellFormed(t)
    ensures WellFormed(r)
    ensures r.rows == t.rows[k := e]
    ensures k in t.rows ==> r.order == t.order
    ensures k !in t.rows ==> r.order == t.order + [k]
  {
    if k in t.rows then Table(t.rows[k := e], t.order)
    else
      assert Distinct(t.order + [k]) by {
        forall i, j | 0 <= i < j < |t.order| + 1 ensures (t.order + [k])[i] != (t.order + [k])[j] {
          if j == |t.order| {
            assert (t.order + [k])[i] == t.order[i];
          } else {
            assert (t.order + [k])[i] == t.order[i] && (t.order + [k])[j] == t.order[j];
          }
        }
      }
      Table(t.rows[k := e], t.order + [k])
  }

  /** `em.remove` of the row with key `k`; the other rows keep their order. */
  function Delete<E>(t: Table<E>, k: string): (r: Table<E>)
    requires WellFormed(t)
    ensures WellFormed(r)
    ensures r.rows == t.rows - {k}
    ensures r.order == Without(t.order, k)
  {
    WithoutDistinct(t.order, k);
    Table(t.rows - {k}, Without(t.order, k))
  }

  /** A query selecting the whole entity returns every row, in table order. */
  function Values<E>(t: Table<E>): (vs: seq<E>)
    requires WellFormed(t)
    ensures |vs| == |t.order|
    ensures forall i :: 0 <= i < |vs| ==> vs[i] == t.rows[t.order[i]]
  {
    seq(|t.order|, i requires 0 <= i < |t.order| => t.rows[t.order[i]])
  }

  /** The listing holds exactly the stored rows. */
  lemma ValuesAreRows<E>(t: Table<E>, e: E)
    requires WellFormed(t)
    ensures e in Values(t) <==> e in t.rows.Values
  {
    var vs := Values(t);
    if e in t.rows.Values {
      var k :| k in t.rows && t.rows[k] == e;
      var i :| 0 <= i < |t.order| && t.order[i] == k;
      assert vs[i] == e;
    }
  }

  /** A table has no rows exactly when its listing is empty. */
  lemma EmptyIff<E>(t: Table<E>)
    requires WellFormed(t)
    ensures t.rows == map[] <==> t.order == []
  {
    if t.order != [] {
      assert t.order[0] in t.rows;
    }
  }

  /** The keys in table order are one per row. */
  lemma SizeIsLength<E>(t: Table<E>)
    requires WellFormed(t)
    ensures |t.rows| == |t.order|
  {
    DistinctCardinality(t.order);
    assert t.rows.Keys == Elements(t.order);
  }

  /** Saving a row over itself changes nothing. */
  lemma PutSame<E>(t: Table<E>, k: string)
    requires WellFormed(t) && k in t.rows
    ensures Put(t, k, t.rows[k]) == t
  {
    assert t.rows[k := t.rows[k]] == t.rows;
  }

  /** A run of saves, `keys[i]` with `rows[i]`, in order. */
  function PutAll<E>(t: Table<E>, keys: seq<string>, es: seq<E>): (r: Table<E>)
    requires WellFormed(t) && |keys| == |es|
    ensures WellFormed(r)
    decreases |keys|
  {
    if keys == [] then t
    else
      var n := |keys| - 1;
      Put(PutAll(t, keys[..n], es[..n]), keys[n], es[n])
  }

  /** After a run of saves the table holds exactly the old keys and the saved ones. */
  lemma {:induction false} PutAllKeys<E>(t: Table<E>, keys: seq<string>, es: seq<E>)
    requires WellFormed(t) && |keys| == |es|
    ensures forall k :: k in PutAll(t, keys, es).rows <==> k in t.rows || k in keys
    decreases |keys|
  {
    if keys != [] {
      var n := |keys| - 1;
      PutAllKeys(t, keys[..n], es[..n]);
      assert keys == keys[..n] + [keys[n]];
    }
  }

  /** A run of saves leaves every row whose key it does not save as it was. */
  lemma {:induction false} PutAllKeeps<E>(t: Table<E>, keys: seq<string>, es: seq<E>, k: string)
    requires WellFormed(t) && |keys| == |es| && k in t.rows && k !in keys
    ensures k in PutAll(t, keys, es).rows && PutAll(t, keys, es).rows[k] == t.rows[k]
    decreases |keys|
  {
    if keys != [] {
      var n := |keys| - 1;
      assert keys == keys[..n] + [keys[n]];
      PutAllKeeps(t, keys[..n], es[..n], k);
    }
  }

  /** Saving fresh, pairwise distinct keys appends them to the listing. */
  lemma {:induction false} PutAllOrder<E>(t: Table<E>, keys: seq<string>, es: seq<E>)
    requires WellFormed(t) && |keys| == |es|
    requires Distinct(keys) && forall i :: 0 <= i < |keys| ==> keys[i] !in t.rows
    ensures PutAll(t, keys, es).order == t.order + keys
    decreases |keys|
  {
    if keys != [] {
      var n := |keys| - 1;
      var init, last := keys[..n], keys[n];
      assert Distinct(init) && forall i :: 0 <= i < |init| ==> init[i] !in t.rows by {
        DistinctPrefix(keys);
        assert forall i :: 0 <= i < n ==> init[i] == keys[i];
      }
      var p := PutAll(t, init, es[..n]);
      assert p.order == t.order + init by {
        PutAllOrder(t, init, es[..n]);
      }
      assert last !in p.rows by {
        PutAllKeys(t, init, es[..n]);
        forall i | 0 <= i < n ensures init[i] != last {
          assert init[i] == keys[i];
        }
      }
      PutAllOrderStep(t, keys, es);
    }
  }

  lemma PutAllOrderStep<E>(t: Table<E>, keys: seq<string>, es: seq<E>)
    requires WellFormed(t) && |keys| == |es| && keys != []
    requires PutAll(t, keys[..|keys| - 1], es[..|keys| - 1]).order == t.order + keys[..|keys| - 1]
    requires keys[|keys| - 1] !in PutAll(t, keys[..|keys| - 1], es[..|keys| - 1]).rows
    ensures PutAll(t, keys, es).order == t.order + keys
  {
    var n := |keys| - 1;
    assert keys == keys[..n] + [keys[n]];
  }

  /**
   * Saving fresh, pairwise distinct keys adds exactly those keys, at the end
   * of the listing, and leaves every earlier row as it was.
   */
  lemma PutAllFresh<E>(t: Table<E>, keys: seq<string>, es: seq<E>)
    requires WellFormed(t) && |keys| == |es|
    requires Distinct(keys) && forall i :: 0 <= i < |keys| ==> keys[i] !in t.rows
    ensures PutAll(t, keys, es).order == t.order + keys
    ensures forall k :: k in PutAll(t, keys, es).rows <==> k in t.rows || k in keys
    ensures forall k :: k in t.rows ==> PutAll(t, keys, es).rows[k] == t.rows[k]
  {
    PutAllOrder(t, keys, es);
    PutAllKeys(t, keys, es);
    forall k | k in t.rows ensures PutAll(t, keys, es).rows[k] == t.rows[k] {
      PutAllKeeps(t, keys, es, k);
    }
  }

  /** After a run of saves with distinct keys, each key holds the row saved under it. */
  lemma {:induction false} PutAllRows<E>(t: Table<E>, keys: seq<string>, es: seq<E>)
    requires WellFormed(t) && |keys| == |es| && Distinct(keys)
    ensures forall i :: 0 <= i < |keys| ==> keys[i] in PutAll(t, keys, es).rows
    ensures forall i :: 0 <= i < |keys| ==> PutAll(t, keys, es).rows[keys[i]] == es[i]
    decreases |keys|
  {
    if keys != [] {
      var n := |keys| - 1;
      DistinctPrefix(keys);
      PutAllRows(t, keys[..n], es[..n]);
      forall i | 0 <= i < n ensures PutAll(t, keys, es).rows[keys[i]] == es[i] {
        assert keys[..n][i] == keys[i] && es[..n][i] == es[i];
        assert keys[i] != keys[n];
      }
    }
  }

  lemma DistinctPrefix(keys: seq<string>)
    requires Distinct(keys) && keys != []
    ensures Distinct(keys[..|keys| - 1])
  {
    var n := |keys| - 1;
    forall i, j | 0 <= i < j < n ensures keys[..n][i] != keys[..n][j] {
      assert keys[..n][i] == keys[i] && keys[..n][j] == keys[j];
    }
  }
}
