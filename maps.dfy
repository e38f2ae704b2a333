/**
 * The key/value collection (maps/map.go): a class around a map whose Put,
 * Pull and Union update the `items` field in place, and whose Intersect,
 * Diff, SymmetricDiff and FromEntries build a fresh collection. Go's map
 * iteration order is unspecified; each loop over a map here picks its next
 * key arbitrarily from the keys not yet visited.
 */
module Maps {
  import opened Collection
  import opened Seqs

  /** es lists the entries of m: one entry per key of m, carrying that key's value. */
  ghost predicate IsEntryListOf<K, V>(es: seq<Entry<K, V>>, m: map<K, V>)
  {
    && (forall i, j :: 0 <= i < j < |es| ==> es[i].key != es[j].key)
    && (forall i :: 0 <= i < |es| ==> es[i].key in m && m[es[i].key] == es[i].value)
    && (forall k :: k in m ==> exists i :: 0 <= i < |es| && es[i].key == k)
  }

  /** Writing back the entries of a map, in any order, rebuilds exactly that map. */
  lemma EntryListRoundTrip<K, V>(es: seq<Entry<K, V>>, m: map<K, V>)
    requires IsEntryListOf(es, m)
    ensures LastWins(es) == m
  {
    var r := LastWins(es);
    forall k | k in m ensures k in r && r[k] == m[k] {
      var i :| 0 <= i < |es| && es[i].key == k;
      assert forall j :: i < j < |es| ==> es[j].key != es[i].key;
      LastWinsAt(es, i);
    }
    forall k | k in r ensures k in m {
      var i :| 0 <= i < |es| && es[i].key == k;
    }
  }

  lemma {:induction false} DistinctKeysCount<K, V>(es: seq<Entry<K, V>>)
    requires forall i, j :: 0 <= i < j < |es| ==> es[i].key != es[j].key
    ensures |KeysOf(es)| == |es|
  {
    if es != [] {
      var n := |es| - 1;
      DistinctKeysCount(es[..n]);
      assert KeysOf(es) == KeysOf(es[..n]) + {es[n].key} by {
        forall k | k in KeysOf(es) ensures k in KeysOf(es[..n]) + {es[n].key} {
          var i :| 0 <= i < |es| && es[i].key == k;
          if i < n { assert es[..n][i].key == k; }
        }
      }
      assert es[n].key !in KeysOf(es[..n]);
    }
  }

  /** An entry list of a map has one entry per key. */
  lemma EntryListLength<K, V>(es: seq<Entry<K, V>>, m: map<K, V>)
    requires IsEntryListOf(es, m)
    ensures |es| == |m|
  {
    DistinctKeysCount(es);
    assert KeysOf(es) == m.Keys;
  }

  class MapCollection<K(==), V> {
    var items: map<K, V>

    /** NewMapCollection wraps the given map (in Go the map is shared with the caller, not copied). */
    constructor (v: map<K, V>)
      ensures items == v
    {
      items := v;
    }

    /** The map itself (in Go, the live shared map). */
    function All(): map<K, V>
      reads this
    {
      items
    }

    function Count(): nat
      reads this
    {
      |items|
    }

    function Empty(): (b: bool)
      reads this
      ensures b <==> items.Keys == {}
    {
      Count() == 0
    }

    /** Every key once, in an unspecified order. */
    method Keys() returns (keys: seq<K>)
      ensures Distinct(keys)
      ensures forall k :: k in keys <==> k in items
    {
      keys := [];
      var rest := items.Keys;
      while rest != {}
        invariant rest <= items.Keys
        invariant Distinct(keys)
        invariant forall k :: k in keys <==> k in items && k !in rest
        decreases rest
      {
        var k :| k in rest;
        keys := keys + [k];
        rest := rest - {k};
      }
    }

    /**
     * Every value once per key, in an unspecified order; `order` is the
     * order in which the keys were visited.
     */
    method Values() returns (values: seq<V>, ghost order: seq<K>)
      ensures Distinct(order) && forall k :: k in order <==> k in items
      ensures |values| == |order| && forall i :: 0 <= i < |order| ==> values[i] == items[order[i]]
    {
      values, order := [], [];
      var rest := items.Keys;
      while rest != {}
        invariant rest <= items.Keys
        invariant Distinct(order) && forall k :: k in order <==> k in items && k !in rest
        invariant |values| == |order| && forall i :: 0 <= i < |order| ==> values[i] == items[order[i]]
        decreases rest
      {
        var k :| k in rest;
        values, order := values + [items[k]], order + [k];
        rest := rest - {k};
      }
    }

    /** One entry per key, with that key's value, in an unspecified order. */
    method Entries() returns (es: seq<Entry<K, V>>)
      ensures IsEntryListOf(es, items)
      ensures |es| == Count()
    {
      es := [];
      var rest := items.Keys;
      while rest != {}
        invariant rest <= items.Keys
        invariant forall i, j :: 0 <= i < j < |es| ==> es[i].key != es[j].key
        invariant forall i :: 0 <= i < |es| ==> es[i].key in items && es[i].key !in rest && items[es[i].key] == es[i].value
        invariant forall k :: k in items && k !in rest ==> exists i :: 0 <= i < |es| && es[i].key == k
        decreases rest
      {
        var k :| k in rest;
        ghost var prev := es;
        es := es + [Entry(k, items[k])];
        assert es[|es| - 1].key == k;
        assert forall i :: 0 <= i < |prev| ==> es[i] == prev[i];
        rest := rest - {k};
      }
      EntryListLength(es, items);
    }

    /**
     * A fresh collection holding the entries, a later entry overwriting an
     * earlier one with the same key. The receiver plays no part.
     */
    method FromEntries(entries: seq<Entry<K, V>>) returns (r: MapCollection<K, V>)
      ensures fresh(r) && r.items == LastWins(entries)
    {
      var ret := map[];
      for i := 0 to |entries|
        invariant ret == LastWins(entries[..i])
      {
        assert entries[..i + 1][..i] == entries[..i];
        var e := entries[i];
        ret := ret[e.key := e.value];
      }
      assert entries[..|entries|] == entries;
      r := new MapCollection(ret);
    }

    function Has(key: K): (b: bool)
      reads this
      ensures b <==> key in items
    {
      Get(key).Some?
    }

    function Get(key: K): (r: Option<V>)
      reads this
      ensures r.Some? <==> key in items
      ensures r.Some? ==> r.value == items[key]
    {
      if key in items then Some(items[key]) else None
    }

    method Put(key: K, value: V)
      modifies this
      ensures key in items && items[key] == value
      ensures items.Keys == old(items).Keys + {key}
      ensures forall k :: k in old(items) && k != key ==> items[k] == old(items)[k]
    {
      items := items[key := value];
    }

    method Pull(key: K) returns (r: Option<V>)
      modifies this
      ensures key in old(items) ==> r == Some(old(items)[key]) && items == old(items) - {key}
      ensures key !in old(items) ==> r == None && items == old(items)
    {
      if key in items {
        var v := items[key];
        items := items - {key};
        return Some(v);
      }
      return None;
    }

    /** Adds every entry of other, overwriting on a shared key: other's value wins. */
    method Union(other: map<K, V>)
      modifies this
      ensures items.Keys == old(items).Keys + other.Keys
      ensures forall k :: k in other ==> items[k] == other[k]
      ensures forall k :: k in old(items) && k !in other ==> items[k] == old(items)[k]
    {
      var rest := other.Keys;
      while rest != {}
        invariant rest <= other.Keys
        invariant items.Keys == old(items).Keys + (other.Keys - rest)
        invariant forall k :: k in other && k !in rest ==> items[k] == other[k]
        invariant forall k :: k in old(items) && (k !in other || k in rest) ==> items[k] == old(items)[k]
        decreases rest
      {
        var k :| k in rest;
        items := items[k := other[k]];
        rest := rest - {k};
      }
    }

    /** A fresh collection of the keys in both maps, with the values of other. */
    method Intersect(other: map<K, V>) returns (r: MapCollection<K, V>)
      ensures fresh(r)
      ensures r.items.Keys == items.Keys * other.Keys
      ensures forall k :: k in r.items ==> r.items[k] == other[k]
    {
      var ret := new MapCollection<K, V>(map[]);
      var rest := items.Keys;
      while rest != {}
        invariant fresh(ret)
        invariant rest <= items.Keys
        invariant ret.items.Keys == (items.Keys - rest) * other.Keys
        invariant forall k :: k in ret.items ==> ret.items[k] == other[k]
        decreases rest
      {
        var k :| k in rest;
        if k in other {
          ret.items := ret.items[k := other[k]];
        }
        rest := rest - {k};
      }
      r := ret;
    }

    /** A fresh collection of the entries whose key is absent from other. */
    method Diff(other: map<K, V>) returns (r: MapCollection<K, V>)
      ensures fresh(r)
      ensures r.items.Keys == items.Keys - other.Keys
      ensures forall k :: k in r.items ==> r.items[k] == items[k]
    {
      var ret := new MapCollection<K, V>(map[]);
      var rest := items.Keys;
      while rest != {}
        invariant fresh(ret)
        invariant rest <= items.Keys
        invariant ret.items.Keys == (items.Keys - rest) - other.Keys
        invariant forall k :: k in ret.items ==> ret.items[k] == items[k]
        decreases rest
      {
        var k :| k in rest;
        if k !in other {
          ret.items := ret.items[k := items[k]];
        }
        rest := rest - {k};
      }
      r := ret;
    }

    /** A fresh collection of the keys in exactly one map, each with the value of the map holding it. */
    method SymmetricDiff(other: map<K, V>) returns (r: MapCollection<K, V>)
      ensures fresh(r)
      ensures r.items.Keys == (items.Keys - other.Keys) + (other.Keys - items.Keys)
      ensures forall k :: k in r.items ==> r.items[k] == if k in items then items[k] else other[k]
    {
      var mine := Diff(other);
      var wrapped := new MapCollection(other);
      var theirs := wrapped.Diff(items);
      mine.Union(theirs.All());
      r := mine;
    }
  }

  /** Entries followed by FromEntries gives back the original map. */
  method EntriesRoundTrip<K(==), V>(c: MapCollection<K, V>) returns (back: MapCollection<K, V>)
    ensures back.items == c.items
  {
    var es := c.Entries();
    back := c.FromEntries(es);
    EntryListRoundTrip(es, c.items);
  }

  /** Put followed by Pull of the same key returns the value and leaves the key absent. */
  method PutThenPull<K(==), V>(c: MapCollection<K, V>, key: K, value: V) returns (r: Option<V>)
    modifies c
    ensures r == Some(value) && c.items == old(c.items) - {key}
  {
    c.Put(key, value);
    r := c.Pull(key);
  }
}
