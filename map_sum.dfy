/**
 The sum of the values of a map, as `SumInts`, `SumIntsOrFloats` and
 `SumNumbers` compute it for int64 values: an accumulator that starts at zero
 and gains each value once, in whatever order Go's `range` visits the keys.
 */
module MapSum {
  import opened Int64

  /* Some key of a non-empty set; which one is left unspecified. */
  ghost function Pick<K>(ks: set<K>): (k: K)
    requires ks != {}
    ensures k in ks
  {
    var k :| k in ks; k
  }

  /* The exact (unbounded) sum of the values at the keys ks of m. */
  ghost function SumOver<K>(m: map<K, int64>, ks: set<K>): int
    requires ks <= m.Keys
    decreases ks
  {
    if ks == {} then 0
    else
      var k := Pick(ks);
      m[k] as int + SumOver(m, ks - {k})
  }

  /* The exact sum of all values of m. */
  ghost function Total<K>(m: map<K, int64>): int
  {
    SumOver(m, m.Keys)
  }

  /* The keys in order are exactly ks, each one once: a possible visit order of range over ks. */
  ghost predicate Enumerates<K>(order: seq<K>, ks: set<K>)
  {
    && ks == (set i | 0 <= i < |order| :: order[i])
    && (forall i, j :: 0 <= i < j < |order| ==> order[i] != order[j])
  }

  /* The value of `s` after `s += v` has run for the keys of order, one after the other. */
  function SumInOrder<K>(m: map<K, int64>, order: seq<K>): int64
    requires forall i :: 0 <= i < |order| ==> order[i] in m
  {
    if order == [] then 0
    else Add(SumInOrder(m, order[..|order| - 1]), m[order[|order| - 1]])
  }

  /* Visiting one more, not yet visited key extends a visit order. */
  lemma EnumeratesAppend<K>(order: seq<K>, ks: set<K>, k: K)
    requires Enumerates(order, ks) && k !in ks
    ensures Enumerates(order + [k], ks + {k})
  {
    var order' := order + [k];
    forall x | x in ks + {k} ensures x in (set i | 0 <= i < |order'| :: order'[i]) {
      if x == k {
        assert order'[|order|] == x;
      } else {
        var i :| 0 <= i < |order| && order[i] == x;
        assert order'[i] == x;
      }
    }
  }

  /* Taking any key out first gives the same sum: the order of addition does not matter. */
  lemma {:induction false} SumOverRemove<K>(m: map<K, int64>, ks: set<K>, k: K)
    requires ks <= m.Keys && k in ks
    ensures SumOver(m, ks) == m[k] as int + SumOver(m, ks - {k})
    decreases ks
  {
    var j := Pick(ks);
    if j != k {
      calc {
        SumOver(m, ks);
        m[j] as int + SumOver(m, ks - {j});
        { SumOverRemove(m, ks - {j}, k); }
        m[j] as int + m[k] as int + SumOver(m, ks - {j} - {k});
        { assert ks - {j} - {k} == ks - {k} - {j}; }
        m[k] as int + (m[j] as int + SumOver(m, ks - {k} - {j}));
        { SumOverRemove(m, ks - {k}, j); }
        m[k] as int + SumOver(m, ks - {k});
      }
    }
  }

  /* Adding one more key to the visited set adds its value to the sum. */
  lemma SumOverAdd<K>(m: map<K, int64>, ks: set<K>, k: K)
    requires ks <= m.Keys && k in m && k !in ks
    ensures SumOver(m, ks + {k}) == SumOver(m, ks) + m[k] as int
  {
    SumOverRemove(m, ks + {k}, k);
    assert ks + {k} - {k} == ks;
  }

  /* Whatever order range visits the keys in, the wrapped accumulator is the
     exact sum of the values reduced to the int64 range. */
  lemma {:induction false} SumInOrderIsWrappedSum<K>(m: map<K, int64>, order: seq<K>, ks: set<K>)
    requires ks <= m.Keys && Enumerates(order, ks)
    ensures SumInOrder(m, order) == Wrap(SumOver(m, ks))
    decreases |order|
  {
    if order != [] {
      var n := |order| - 1;
      var last, front := order[n], order[..n];
      assert last in ks;
      assert Enumerates(front, ks - {last}) by {
        forall k ensures k in ks - {last} <==> k in front {
          if k in ks - {last} {
            assert k in order;
            var i :| 0 <= i < |order| && order[i] == k;
            assert i != n;
            assert front[i] == k;
          }
          if k in front {
            var i :| 0 <= i < n && front[i] == k;
            assert order[i] == k && order[i] != order[n];
          }
        }
      }
      SumInOrderIsWrappedSum(m, front, ks - {last});
      SumOverRemove(m, ks, last);
      WrapAddWrap(SumOver(m, ks - {last}), m[last] as int);
    }
  }

  /* Two visit orders of the same map always give the same result. */
  lemma OrderIndependent<K>(m: map<K, int64>, order1: seq<K>, order2: seq<K>)
    requires Enumerates(order1, m.Keys) && Enumerates(order2, m.Keys)
    ensures SumInOrder(m, order1) == SumInOrder(m, order2)
  {
    SumInOrderIsWrappedSum(m, order1, m.Keys);
    SumInOrderIsWrappedSum(m, order2, m.Keys);
  }

  /* The result is the sum of all values: adding an entry under a new key adds its value. */
  lemma TotalInsert<K>(m: map<K, int64>, k: K, v: int64)
    requires k !in m
    ensures Total(m[k := v]) == Total(m) + v as int
  {
    var m' := m[k := v];
    assert m'.Keys == m.Keys + {k};
    SumOverAdd(m', m.Keys, k);
    SumOverSameValues(m, m', m.Keys);
  }

  /* The sum over ks only depends on the values at ks. */
  lemma {:induction false} SumOverSameValues<K>(m: map<K, int64>, m': map<K, int64>, ks: set<K>)
    requires ks <= m.Keys && ks <= m'.Keys
    requires forall k :: k in ks ==> m[k] == m'[k]
    ensures SumOver(m, ks) == SumOver(m', ks)
    decreases ks
  {
    if ks != {} {
      var k := Pick(ks);
      SumOverSameValues(m, m', ks - {k});
    }
  }

  /* Go's `range` loop with `s += v`, one copy per Go function:
     sums visited keys, picking each next key arbitrarily. */
  method SumInts(m: map<string, int64>) returns (s: int64, ghost order: seq<string>)
    ensures m == map[] ==> s == 0
    ensures s == Wrap(Total(m))
    ensures MinInt64 <= Total(m) <= MaxInt64 ==> s as int == Total(m)
    ensures Enumerates(order, m.Keys) && s == SumInOrder(m, order)
  {
    s := 0;
    order := [];
    var remaining := m.Keys;
    while remaining != {}
      invariant remaining <= m.Keys
      invariant Enumerates(order, m.Keys - remaining)
      invariant forall i :: 0 <= i < |order| ==> order[i] in m
      invariant s == SumInOrder(m, order)
      invariant s == Wrap(SumOver(m, m.Keys - remaining))
      decreases remaining
    {
      var k :| k in remaining;
      SumOverAdd(m, m.Keys - remaining, k);
      WrapAddWrap(SumOver(m, m.Keys - remaining), m[k] as int);
      assert (order + [k])[..|order|] == order;
      EnumeratesAppend(order, m.Keys - remaining, k);
      assert m.Keys - (remaining - {k}) == (m.Keys - remaining) + {k};
      s := Add(s, m[k]);
      order := order + [k];
      remaining := remaining - {k};
    }
    assert m.Keys - remaining == m.Keys;
  }

  /* The generic SumIntsOrFloats and SumNumbers instantiated at V = int64:
     the same loop as SumInts, over any comparable key type. */
  method SumNumbers<K>(m: map<K, int64>) returns (s: int64, ghost order: seq<K>)
    ensures m == map[] ==> s == 0
    ensures s == Wrap(Total(m))
    ensures MinInt64 <= Total(m) <= MaxInt64 ==> s as int == Total(m)
    ensures Enumerates(order, m.Keys) && s == SumInOrder(m, order)
  {
    s := 0;
    order := [];
    var remaining := m.Keys;
    while remaining != {}
      invariant remaining <= m.Keys
      invariant Enumerates(order, m.Keys - remaining)
      invariant forall i :: 0 <= i < |order| ==> order[i] in m
      invariant s == SumInOrder(m, order)
      invariant s == Wrap(SumOver(m, m.Keys - remaining))
      decreases remaining
    {
      var k :| k in remaining;
      SumOverAdd(m, m.Keys - remaining, k);
      WrapAddWrap(SumOver(m, m.Keys - remaining), m[k] as int);
      assert (order + [k])[..|order|] == order;
      EnumeratesAppend(order, m.Keys - remaining, k);
      assert m.Keys - (remaining - {k}) == (m.Keys - remaining) + {k};
      s := Add(s, m[k]);
      order := order + [k];
      remaining := remaining - {k};
    }
    assert m.Keys - remaining == m.Keys;
  }

  /* The four call styles of the demo program on one integer map: SumInts,
     SumIntsOrFloats with explicit and with inferred type arguments, and SumNumbers. */
  method CallStyles(m: map<string, int64>) returns (nonGeneric: int64, explicit: int64, inferred: int64, constrained: int64)
    ensures nonGeneric == explicit == inferred == constrained
    ensures nonGeneric == Wrap(Total(m))
  {
    ghost var order: seq<string>;
    nonGeneric, order := SumInts(m);
    explicit, order := SumNumbers<string>(m);
    inferred, order := SumNumbers(m);
    constrained, order := SumNumbers(m);
  }

  /* The integer map of the demo program. */
  function DemoInts(): map<string, int64>
  {
    map["first" := 34, "second" := 12]
  }

  /* The demo map's values add up to 46. */
  lemma DemoTotal()
    ensures Total(DemoInts()) == 46
  {
    TotalInsert(map["first" := 34], "second", 12);
    TotalInsert(map[], "first", 34);
    assert map[]["first" := 34] == map["first" := 34];
    assert map["first" := 34]["second" := 12] == DemoInts();
  }

  /* Every call style of the demo program sums the demo map to 46. */
  method DemoSums() returns (nonGeneric: int64, explicit: int64, inferred: int64, constrained: int64)
    ensures nonGeneric == 46 && explicit == 46 && inferred == 46 && constrained == 46
  {
    DemoTotal();
    nonGeneric, explicit, inferred, constrained := CallStyles(DemoInts());
  }

  /* A total beyond the int64 range wraps around instead of failing:
     the largest int64 plus one sums to the smallest int64. */
  lemma OverflowWraps()
    ensures Wrap(Total(map["a" := MaxInt64 as int64, "b" := 1])) as int == MinInt64
  {
    TotalInsert(map["a" := MaxInt64 as int64], "b", 1);
    TotalInsert(map[], "a", MaxInt64 as int64);
    assert map[]["a" := MaxInt64 as int64] == map["a" := MaxInt64 as int64];
  }
}
