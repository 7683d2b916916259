/** The per-test-case variable map: variable name to captured text. The
    source keeps a hash map; here it is a sequence with distinct keys,
    whose order is the order substitution visits the variables. */
module VariableStore {
  import opened Wrappers

  type Store = seq<(string, string)>

  predicate DistinctKeys(st: Store) {
    forall i, j :: 0 <= i < j < |st| ==> st[i].0 != st[j].0
  }

  function Keys(st: Store): (ks: set<string>)
    ensures forall k :: k in ks <==> exists i :: 0 <= i < |st| && st[i].0 == k
  {
    set i | 0 <= i < |st| :: st[i].0
  }

  /** The value stored under `k`, if any. */
  function Get(st: Store, k: string): (r: Option<string>)
    ensures r.None? <==> k !in Keys(st)
    ensures r.Some? ==> exists i :: 0 <= i < |st| && st[i] == (k, r.value)
  {
    if |st| == 0 then None
    else if st[0].0 == k then Some(st[0].1)
    else
      var r := Get(st[1..], k);
      assert k in Keys(st[1..]) <==> k in Keys(st) by {
        if k in Keys(st) {
          var i :| 0 <= i < |st| && st[i].0 == k;
          assert st[1..][i - 1].0 == k;
        }
      }
      r
  }

  /** `insert(k, v)`: a new key goes to the end, an existing one keeps
      its place and takes the new value. */
  function Upsert(st: Store, k: string, v: string): (r: Store)
    ensures |r| == |st| || |r| == |st| + 1
  {
    if |st| == 0 then [(k, v)]
    else if st[0].0 == k then [(k, v)] + st[1..]
    else [st[0]] + Upsert(st[1..], k, v)
  }

  /** After `insert(k, v)` the store maps `k` to `v` and every other key
      as before. */
  lemma {:induction false} UpsertGet(st: Store, k: string, v: string)
    ensures Get(Upsert(st, k, v), k) == Some(v)
    ensures forall k' :: k' != k ==> Get(Upsert(st, k, v), k') == Get(st, k')
  {
    if |st| > 0 && st[0].0 != k {
      UpsertGet(st[1..], k, v);
    }
  }

  lemma KeysCons(st: Store)
    requires |st| > 0
    ensures Keys(st) == {st[0].0} + Keys(st[1..])
  {
    forall k | k in Keys(st) ensures k in {st[0].0} + Keys(st[1..]) {
      var i :| 0 <= i < |st| && st[i].0 == k;
      if i > 0 {
        assert st[1..][i - 1].0 == k;
      }
    }
    forall k | k in Keys(st[1..]) ensures k in Keys(st) {
      var i :| 0 <= i < |st[1..]| && st[1..][i].0 == k;
      assert st[i + 1].0 == k;
    }
  }

  /** Inserting adds exactly its key. */
  lemma {:induction false} UpsertKeySet(st: Store, k: string, v: string)
    ensures Keys(Upsert(st, k, v)) == Keys(st) + {k}
  {
    if |st| > 0 {
      var r := Upsert(st, k, v);
      KeysCons(st);
      KeysCons(r);
      if st[0].0 == k {
        assert r[1..] == st[1..];
      } else {
        UpsertKeySet(st[1..], k, v);
        assert r[1..] == Upsert(st[1..], k, v);
      }
    } else {
      assert Upsert(st, k, v)[0].0 == k;
    }
  }

  /** Inserting adds exactly its key and keeps the keys distinct. */
  lemma {:induction false} UpsertKeys(st: Store, k: string, v: string)
    ensures Keys(Upsert(st, k, v)) == Keys(st) + {k}
    ensures DistinctKeys(st) ==> DistinctKeys(Upsert(st, k, v))
  {
    UpsertKeySet(st, k, v);
    if |st| > 0 && st[0].0 != k && DistinctKeys(st) {
      var r := Upsert(st, k, v);
      var tail := Upsert(st[1..], k, v);
      assert r == [st[0]] + tail;
      UpsertKeys(st[1..], k, v);
      forall j | 0 <= j < |tail| ensures tail[j].0 != st[0].0 {
        assert tail[j].0 in Keys(st[1..]) + {k};
        if tail[j].0 in Keys(st[1..]) {
          var m :| 0 <= m < |st[1..]| && st[1..][m].0 == tail[j].0;
          assert st[m + 1].0 == tail[j].0;
        }
      }
    } else if |st| > 0 && st[0].0 == k {
      assert Upsert(st, k, v)[1..] == st[1..];
    }
  }
}
