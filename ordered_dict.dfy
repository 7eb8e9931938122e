/** Python's insertion-ordered dictionary (`collections.OrderedDict`) as a value:
    the keys in insertion order next to a map from key to value. The same structure
    with `nat` values models `collections.Counter`, which the cassette uses for its
    play counts. */
module OrderedDicts {
  import opened Wrappers

  /** No element occurs twice in `s`. */
  ghost predicate Distinct<K>(s: seq<K>) {
    forall i, j :: 0 <= i < j < |s| ==> s[i] != s[j]
  }

  /** The values of `m` at the keys `ks`, position for position. */
  function ValuesOf<K, V>(ks: seq<K>, m: map<K, V>): (vs: seq<V>)
    requires forall k :: k in ks ==> k in m
    ensures |vs| == |ks|
    ensures forall i :: 0 <= i < |ks| ==> vs[i] == m[ks[i]]
  {
    if ks == [] then [] else ValuesOf(ks[..|ks| - 1], m) + [m[ks[|ks| - 1]]]
  }

  datatype OrderedMap<K(!new), V> = OrderedMap(order: seq<K>, entries: map<K, V>) {

    /** Every key is listed once in `order`, and `order` lists exactly the keys. */
    ghost predicate Valid() {
      && Distinct(order)
      && forall k :: k in entries <==> k in order
    }

    /** `keys()`: the keys in insertion order. */
    function Keys(): seq<K> {
      order
    }

    /** `values()`: the values in the order of their keys. */
    function Values(): seq<V>
      requires Valid()
    {
      ValuesOf(order, entries)
    }

    /** `k in d` */
    predicate Contains(k: K) {
      k in entries
    }

    /** `d[k]`, with `None` where Python raises `KeyError`. */
    function Get(k: K): Option<V> {
      if k in entries then Some(entries[k]) else None
    }

    /** `len(d)`: the number of keys. */
    function Len(): nat {
      |entries|
    }

    /** `d[k] = v`: an existing key keeps its position and gets the new value;
        a new key goes at the end. */
    function Put(k: K, v: V): (r: OrderedMap<K, V>)
      requires Valid()
      ensures r.Valid()
      ensures r.Get(k) == Some(v)
      ensures forall j :: j != k ==> r.Get(j) == Get(j)
      ensures Contains(k) ==> r.Keys() == Keys() && r.Len() == Len()
      ensures !Contains(k) ==> r.Keys() == Keys() + [k] && r.Len() == Len() + 1
    {
      if k in entries then
        OrderedMap(order, entries[k := v])
      else
        var r := OrderedMap(order + [k], entries[k := v]);
        assert forall j :: j in r.entries <==> j in r.order by {
          forall j ensures j in r.entries <==> j in r.order {
            assert j in r.order <==> j in order || j == k;
          }
        }
        r
    }
  }

  /** A fresh, empty dictionary. */
  function Empty<K(!new), V>(): (d: OrderedMap<K, V>)
    ensures d.Valid() && d.Len() == 0 && d.Keys() == []
    ensures forall k :: !d.Contains(k)
  {
    OrderedMap([], map[])
  }

  /** Two dictionaries that answer every lookup alike hold the same entries. */
  lemma SameLookupsSameEntries<K(!new), V>(d: OrderedMap<K, V>, e: OrderedMap<K, V>)
    requires forall k :: d.Get(k) == e.Get(k)
    ensures d.entries == e.entries
  {
    assert forall k :: k in d.entries <==> k in e.entries by {
      forall k ensures k in d.entries <==> k in e.entries {
        assert d.Get(k) == e.Get(k);
      }
    }
    forall k | k in d.entries ensures d.entries[k] == e.entries[k] {
      assert d.Get(k) == e.Get(k);
    }
  }

  /** The set of the elements of a sequence without repetitions has one member
      per position. */
  lemma {:induction false} DistinctCardinality<K>(s: seq<K>)
    requires Distinct(s)
    ensures |set k | k in s| == |s|
  {
    if s != [] {
      var init := s[..|s| - 1];
      var last := s[|s| - 1];
      assert s == init + [last];
      assert (set k | k in s) == (set k | k in init) + {last};
      assert last !in (set k | k in init);
      DistinctCardinality(init);
    }
  }

  /** `len(d)` counts the keys, which are exactly the entries of `d.keys()`. */
  lemma LenIsKeyCount<K(!new), V>(d: OrderedMap<K, V>)
    requires d.Valid()
    ensures d.Len() == |d.Keys()|
  {
    assert d.entries.Keys == set k | k in d.order;
    DistinctCardinality(d.order);
  }

  /** The `i`-th value is the value stored under the `i`-th key, and there are as
      many values as keys. */
  lemma ValuesAligned<K(!new), V>(d: OrderedMap<K, V>, i: nat)
    requires d.Valid() && i < |d.Keys()|
    ensures |d.Values()| == |d.Keys()| == d.Len()
    ensures d.Get(d.Keys()[i]) == Some(d.Values()[i])
  {
    LenIsKeyCount(d);
  }

  /** The sum of a sequence of counts, as Python's `sum`. */
  function Sum(s: seq<nat>): nat {
    if s == [] then 0 else Sum(s[..|s| - 1]) + s[|s| - 1]
  }

  /** The sum of the values of `m` at the keys `ks`. */
  function SumOver<K>(ks: seq<K>, m: map<K, nat>): nat
    requires forall k :: k in ks ==> k in m
  {
    if ks == [] then 0 else SumOver(ks[..|ks| - 1], m) + m[ks[|ks| - 1]]
  }

  /** Summing over the keys is summing the values view. */
  lemma {:induction false} SumOverIsSumOfValues<K>(ks: seq<K>, m: map<K, nat>)
    requires forall k :: k in ks ==> k in m
    ensures SumOver(ks, m) == Sum(ValuesOf(ks, m))
  {
    if ks != [] {
      var vs := ValuesOf(ks, m);
      SumOverIsSumOfValues(ks[..|ks| - 1], m);
      assert vs[..|vs| - 1] == ValuesOf(ks[..|ks| - 1], m);
    }
  }

  /** Changing the count of a key not among `ks` leaves their sum alone. */
  lemma {:induction false} SumOverOther<K>(ks: seq<K>, m: map<K, nat>, k: K, v: nat)
    requires forall j :: j in ks ==> j in m
    requires k !in ks
    ensures SumOver(ks, m[k := v]) == SumOver(ks, m)
  {
    if ks != [] {
      SumOverOther(ks[..|ks| - 1], m, k, v);
    }
  }

  /** Raising the count of a key listed once in `ks` raises their sum by one. */
  lemma {:induction false} SumOverRaise<K>(ks: seq<K>, m: map<K, nat>, k: K)
    requires forall j :: j in ks ==> j in m
    requires Distinct(ks) && k in ks
    ensures SumOver(ks, m[k := m[k] + 1]) == SumOver(ks, m) + 1
  {
    var n := |ks| - 1;
    var init := ks[..n];
    assert ks == init + [ks[n]];
    if ks[n] == k {
      assert k !in init by {
        forall i | 0 <= i < n ensures init[i] != k {
          assert ks[i] != ks[n];
        }
      }
      SumOverOther(init, m, k, m[k] + 1);
    } else {
      assert k in init;
      assert Distinct(init);
      SumOverRaise(init, m, k);
    }
  }

  /** `c[k]` on a `Counter`: the count of `k`, zero for a key never counted. */
  function CountOf<K(!new)>(c: OrderedMap<K, nat>, k: K): nat {
    c.Get(k).GetOr(0)
  }

  /** `sum(c.values())` on a `Counter`, summed key by key. */
  function Total<K(!new)>(c: OrderedMap<K, nat>): nat
    requires c.Valid()
  {
    SumOver(c.order, c.entries)
  }

  /** `Total` is the sum of the values view. */
  lemma TotalIsSumOfValues<K(!new)>(c: OrderedMap<K, nat>)
    requires c.Valid()
    ensures Total(c) == Sum(c.Values())
  {
    SumOverIsSumOfValues(c.order, c.entries);
  }

  /** Overwriting the `i`-th key replaces the `i`-th value and nothing else. */
  lemma ValuesAfterOverwrite<K(!new), V>(d: OrderedMap<K, V>, i: nat, v: V)
    requires d.Valid() && i < |d.Keys()|
    ensures d.Put(d.Keys()[i], v).Values() == d.Values()[i := v]
  {
    var d' := d.Put(d.order[i], v);
    assert d'.order == d.order;
    forall j | 0 <= j < |d.order| ensures d'.Values()[j] == d.Values()[i := v][j] {
      assert d.order[j] == d.order[i] <==> j == i;
    }
  }

  /** Adding a new key appends its value to `values()`. */
  lemma ValuesAfterInsert<K(!new), V>(d: OrderedMap<K, V>, k: K, v: V)
    requires d.Valid() && !d.Contains(k)
    ensures d.Put(k, v).Values() == d.Values() + [v]
  {
    var n := |d.order|;
    var m := d.entries[k := v];
    assert d.Put(k, v) == OrderedMap(d.order + [k], m);
    assert (d.order + [k])[..n] == d.order;
    forall i | 0 <= i < n ensures ValuesOf(d.order, m)[i] == d.Values()[i] {
      assert d.order[i] in d.entries;
    }
    assert ValuesOf(d.order, m) == d.Values();
  }

  /** `c[k] += 1` on a `Counter`: the count of `k` goes up by one, starting from
      zero for a key never counted; every other count stays; the total goes up by
      one. */
  function Increment<K(!new)>(c: OrderedMap<K, nat>, k: K): (r: OrderedMap<K, nat>)
    requires c.Valid()
    ensures r.Valid()
    ensures CountOf(r, k) == CountOf(c, k) + 1
    ensures forall j :: j != k ==> CountOf(r, j) == CountOf(c, j)
    ensures Total(r) == Total(c) + 1
  {
    IncrementTotal(c, k);
    c.Put(k, CountOf(c, k) + 1)
  }

  /** `c[k] += 1` on a `Counter` raises the total of all counts by exactly one,
      whether or not `k` was counted before. */
  lemma IncrementTotal<K(!new)>(c: OrderedMap<K, nat>, k: K)
    requires c.Valid()
    ensures Total(c.Put(k, CountOf(c, k) + 1)) == Total(c) + 1
  {
    if k in c.entries {
      IncrementCounted(c, k);
    } else {
      IncrementUncounted(c, k);
    }
  }

  /** `IncrementTotal` for a key already counted. */
  lemma IncrementCounted<K(!new)>(c: OrderedMap<K, nat>, k: K)
    requires c.Valid() && c.Contains(k)
    ensures Total(c.Put(k, CountOf(c, k) + 1)) == Total(c) + 1
  {
    assert c.Put(k, CountOf(c, k) + 1) == OrderedMap(c.order, c.entries[k := c.entries[k] + 1]);
    SumOverRaise(c.order, c.entries, k);
  }

  /** `IncrementTotal` for a key never counted: it enters with count one. */
  lemma IncrementUncounted<K(!new)>(c: OrderedMap<K, nat>, k: K)
    requires c.Valid() && !c.Contains(k)
    ensures Total(c.Put(k, CountOf(c, k) + 1)) == Total(c) + 1
  {
    var order := c.order + [k];
    var m := c.entries[k := 1];
    assert c.Put(k, CountOf(c, k) + 1) == OrderedMap(order, m);
    assert order[..|order| - 1] == c.order;
    SumOverOther(c.order, c.entries, k, 1);
  }
}
