/**
 * The ordered collection (slices/slice.go): a class around a sequence of
 * items, with in-place mutators that reassign or update the `items` field,
 * copy-producing operations that return a fresh collection, lookups that
 * return an Option instead of a (value, found) pair, and the free functions
 * Reduce, FlatMap, GroupBy, KeyBy and Flatten.
 */
module Slices {
  import opened Collection
  import opened Seqs

  class SliceCollection<T(==)> {
    var items: seq<T>

    /** NewSliceCollection: the collection holds its own copy of v (a nil slice is the empty sequence). */
    constructor (v: seq<T>)
      ensures items == v
    {
      items := v;
    }

    function Len(): nat
      reads this
    {
      |items|
    }

    /** The items themselves (in Go, the live backing slice). */
    function All(): seq<T>
      reads this
    {
      items
    }

    function Empty(): (b: bool)
      reads this
      ensures b <==> items == []
    {
      Len() == 0
    }

    /** Found exactly for an index below the length; a negative index is a panic in the source. */
    function Get(i: int): (r: Option<T>)
      requires i >= 0
      reads this
      ensures r.Some? <==> i < |items|
      ensures r.Some? ==> r.value == items[i]
    {
      if i >= Len() then None else Some(items[i])
    }

    function First(): (r: Option<T>)
      reads this
      ensures r.Some? <==> items != []
      ensures r.Some? ==> r.value == items[0]
    {
      Get(0)
    }

    /** On an empty collection the source reads index -1 and panics. */
    function Last(): (r: Option<T>)
      requires items != []
      reads this
      ensures r == Some(items[|items| - 1])
    {
      Get(Len() - 1)
    }

    method Put(i: int, v: T)
      requires 0 <= i < |items|
      modifies this
      ensures |items| == |old(items)| && items[i] == v
      ensures forall j :: 0 <= j < |items| && j != i ==> items[j] == old(items)[j]
    {
      items := items[i := v];
    }

    /** The first element, scanning from index 0, that satisfies p. */
    method Find(p: (T, int) -> bool) returns (r: Option<T>)
      ensures r.None? <==> forall j :: 0 <= j < |items| ==> !p(items[j], j)
      ensures r.Some? ==> exists j :: 0 <= j < |items| && p(items[j], j) && r.value == items[j] &&
                                       forall k :: 0 <= k < j ==> !p(items[k], k)
    {
      for i := 0 to |items|
        invariant forall j :: 0 <= j < i ==> !p(items[j], j)
      {
        if p(items[i], i) {
          return Some(items[i]);
        }
      }
      return None;
    }

    /** The index of the first element that satisfies p, or -1. */
    method Index(p: (T, int) -> bool) returns (r: int)
      ensures -1 <= r < |items|
      ensures r >= 0 ==> p(items[r], r) && forall j :: 0 <= j < r ==> !p(items[j], j)
      ensures r == -1 ==> forall j :: 0 <= j < |items| ==> !p(items[j], j)
    {
      for i := 0 to |items|
        invariant forall j :: 0 <= j < i ==> !p(items[j], j)
      {
        if p(items[i], i) {
          return i;
        }
      }
      return -1;
    }

    /**
     * Each calls fn on the items in order and stops after the first call
     * that returns false. Only the number of calls is modelled: the
     * callback's own effects are not.
     */
    method Each(fn: (T, int) -> bool) returns (visited: nat)
      ensures visited <= |items|
      ensures forall j :: 0 <= j < visited - 1 ==> fn(items[j], j)
      ensures visited < |items| ==> 0 < visited && !fn(items[visited - 1], visited - 1)
    {
      visited := 0;
      while visited < |items|
        invariant visited <= |items|
        invariant forall j :: 0 <= j < visited ==> fn(items[j], j)
      {
        var i := visited;
        visited := visited + 1;
        if !fn(items[i], i) {
          break;
        }
      }
    }

    /**
     * Map as written: the result starts as |items| zero values and the
     * mapped values are appended after them. `zero` is Go's zero value of T.
     */
    method Map(fn: (T, int) -> T, zero: T) returns (r: SliceCollection<T>)
      ensures fresh(r)
      ensures |r.items| == 2 * |items|
      ensures forall i :: 0 <= i < |items| ==> r.items[i] == zero && r.items[|items| + i] == fn(items[i], i)
    {
      var n := |items|;
      var ret := seq(n, _ => zero);
      for i := 0 to n
        invariant |ret| == n + i
        invariant forall j :: 0 <= j < n ==> ret[j] == zero
        invariant forall j :: 0 <= j < i ==> ret[n + j] == fn(items[j], j)
      {
        ret := ret + [fn(items[i], i)];
      }
      r := new SliceCollection(ret);
    }

    /** Map as its tests expect it: one mapped value per item, nothing else. */
    method MapIntended(fn: (T, int) -> T) returns (r: SliceCollection<T>)
      ensures fresh(r)
      ensures |r.items| == |items|
      ensures forall i :: 0 <= i < |items| ==> r.items[i] == fn(items[i], i)
    {
      var ret := [];
      for i := 0 to |items|
        invariant |ret| == i
        invariant forall j :: 0 <= j < i ==> ret[j] == fn(items[j], j)
      {
        ret := ret + [fn(items[i], i)];
      }
      r := new SliceCollection(ret);
    }

    method Transform(fn: (T, int) -> T)
      modifies this
      ensures |items| == |old(items)|
      ensures forall i :: 0 <= i < |items| ==> items[i] == fn(old(items)[i], i)
    {
      for i := 0 to |items|
        invariant |items| == |old(items)|
        invariant forall j :: 0 <= j < i ==> items[j] == fn(old(items)[j], j)
        invariant forall j :: i <= j < |items| ==> items[j] == old(items)[j]
      {
        items := items[i := fn(items[i], i)];
      }
    }

    method Contains(p: (T, int) -> bool) returns (b: bool)
      ensures b <==> exists j :: 0 <= j < |items| && p(items[j], j)
    {
      var i := Index(p);
      b := i != -1;
    }

    /** A fresh collection of the items that satisfy p, in their original order. */
    method Filter(p: (T, int) -> bool) returns (r: SliceCollection<T>)
      ensures fresh(r) && r.items == Filtered(items, p)
    {
      var ret := [];
      for i := 0 to |items|
        invariant ret == Filtered(items[..i], p)
      {
        assert items[..i + 1][..i] == items[..i];
        if p(items[i], i) {
          ret := ret + [items[i]];
        }
      }
      assert items[..|items|] == items;
      r := new SliceCollection(ret);
    }

    /** A fresh collection of the items that do not satisfy p, in their original order. */
    method Reject(p: T -> bool) returns (r: SliceCollection<T>)
      ensures fresh(r) && r.items == Filtered(items, Rejecting(p))
    {
      var ret := [];
      for i := 0 to |items|
        invariant ret == Filtered(items[..i], Rejecting(p))
      {
        assert items[..i + 1][..i] == items[..i];
        if !p(items[i]) {
          ret := ret + [items[i]];
        }
      }
      assert items[..|items|] == items;
      r := new SliceCollection(ret);
    }

    method Concat(xs: seq<T>)
      modifies this
      ensures items == old(items) + xs
    {
      items := items + xs;
    }

    /** fn of every item, joined with sep between neighbours. */
    method Join(fn: T -> string, sep: string) returns (s: string)
      ensures s == JoinStrings(ApplyIndexed(items, (v: T, i: int) => fn(v)), sep)
    {
      var str := [];
      for i := 0 to |items|
        invariant str == ApplyIndexed(items[..i], (v: T, k: int) => fn(v))
      {
        str := str + [fn(items[i])];
      }
      assert items[..|items|] == items;
      s := JoinStrings(str, sep);
    }

    /** A fresh collection with the same items. */
    method Clone() returns (r: SliceCollection<T>)
      ensures fresh(r) && r != this && r.items == items
    {
      var clone := items;
      r := new SliceCollection(clone);
    }

    /**
     * Tap hands a clone to its callback and returns the receiver. The
     * callback is not modelled; `view` is the clone it would receive, which
     * is a different object, so nothing done to it reaches the receiver.
     */
    method Tap() returns (self: SliceCollection<T>, view: SliceCollection<T>)
      ensures self == this && fresh(view) && view.items == items
    {
      view := Clone();
      self := this;
    }

    /** A fresh collection of the items whose value occurs nowhere in target, in order. */
    method Diff(target: seq<T>) returns (r: SliceCollection<T>)
      ensures fresh(r) && r.items == Filtered(items, NotIn(target))
    {
      var different := [];
      var t := new SliceCollection(target);
      // Each with a callback that always returns true: every item is visited.
      for i := 0 to |items|
        invariant t.items == target
        invariant different == Filtered(items[..i], NotIn(target))
      {
        assert items[..i + 1][..i] == items[..i];
        var v := items[i];
        var found := t.Find(EqualTo(v));
        if found.None? {
          assert forall j :: 0 <= j < |target| ==> target[j] != v;
          different := different + [v];
        }
      }
      assert items[..|items|] == items;
      r := new SliceCollection(different);
    }

    /** Appends the targets, in argument order. */
    method Merge(targets: seq<seq<T>>)
      modifies this
      ensures items == old(items) + Concatenation(targets)
    {
      for k := 0 to |targets|
        invariant items == old(items) + Concatenation(targets[..k])
      {
        assert targets[..k + 1][..k] == targets[..k];
        items := items + targets[k];
      }
      assert targets[..|targets|] == targets;
    }

    method Pop() returns (r: Option<T>)
      modifies this
      ensures old(items) == [] ==> r == None && items == old(items)
      ensures old(items) != [] ==>
        r == Some(old(items)[|old(items)| - 1]) && items == old(items)[..|old(items)| - 1]
    {
      var l := Len();
      if l == 0 {
        return None;
      }
      var value := items[l - 1];
      items := items[..l - 1];
      return Some(value);
    }

    method Push(v: T)
      modifies this
      ensures items == old(items) + [v]
    {
      items := items + [v];
    }

    /** Reverses the items in place with the source's two-index swap loop. */
    method Reverse()
      modifies this
      ensures items == Reversed(old(items))
      ensures |items| == |old(items)|
      ensures forall k :: 0 <= k < |items| ==> items[k] == old(items)[|items| - 1 - k]
      ensures multiset(items) == multiset(old(items))
    {
      ghost var s := items;
      var n := |items|;
      var i, j := n - 1, 0;
      while i > j
        invariant |items| == n
        invariant i + j == n - 1 && 0 <= j && j <= i + 1
        invariant forall k :: 0 <= k < j ==> items[k] == s[n - 1 - k]
        invariant forall k :: i < k < n ==> items[k] == s[n - 1 - k]
        invariant forall k :: j <= k <= i ==> items[k] == s[k]
      {
        items := items[i := items[j]][j := items[i]];
        i, j := i - 1, j + 1;
      }
      assert forall k :: 0 <= k < n ==> items[k] == s[n - 1 - k];
      forall k | 0 <= k < n ensures items[k] == Reversed(s)[k] {
        ReversedAt(s, k);
      }
      assert items == Reversed(s);
      ReversedPermutes(s);
    }

    /**
     * A fresh collection of items[offset..]; with a length that is not -1,
     * of the `length` items from offset. Only the first entry of the
     * variadic `lengths` matters; out-of-range bounds panic in the source.
     */
    method Slice(offset: int, lengths: seq<int>) returns (r: SliceCollection<T>)
      requires |lengths| == 0 || lengths[0] == -1 ==> 0 <= offset <= |items|
      requires |lengths| > 0 && lengths[0] != -1 ==> 0 <= offset <= offset + lengths[0] <= |items|
      ensures fresh(r)
      ensures |lengths| == 0 || lengths[0] == -1 ==> r.items == items[offset..]
      ensures |lengths| > 0 && lengths[0] != -1 ==> r.items == items[offset..offset + lengths[0]]
    {
      if |lengths| == 0 || lengths[0] == -1 {
        r := new SliceCollection(items[offset..]);
        return;
      }
      r := new SliceCollection(items[offset..offset + lengths[0]]);
    }

    method Prepend(v: T)
      modifies this
      ensures items == [v] + old(items)
    {
      items := [v] + items;
    }

    method Shift() returns (r: Option<T>)
      modifies this
      ensures old(items) == [] ==> r == None && items == old(items)
      ensures old(items) != [] ==> r == Some(old(items)[0]) && items == old(items)[1..]
    {
      var v := Get(0);
      if v.None? {
        return None;
      }
      items := items[1..];
      return v;
    }

    method Delete(i: int)
      requires 0 <= i < |items|
      modifies this
      ensures items == old(items)[..i] + old(items)[i + 1..]
      ensures |items| == |old(items)| - 1
      ensures forall k :: 0 <= k < i ==> items[k] == old(items)[k]
      ensures forall k :: i <= k < |items| ==> items[k] == old(items)[k + 1]
    {
      items := items[..i] + items[i + 1..];
    }

    /**
     * Consecutive groups of size n (of size 1 when n <= 1); only the last
     * group may be shorter, and no group is empty.
     */
    method Chunk(n: int) returns (ret: seq<seq<T>>)
      ensures Concatenation(ret) == items
      ensures forall c :: c in ret ==> c != []
      ensures forall k :: 0 <= k < |ret| - 1 ==> |ret[k]| == if n <= 1 then 1 else n
      ensures ret != [] ==> |ret[|ret| - 1]| <= if n <= 1 then 1 else n
    {
      var size := if n <= 1 then 1 else n;
      var i := 1;
      var chunk: seq<T> := [];
      ret := [];
      for idx := 0 to |items|
        invariant i == |chunk| + 1 && |chunk| < size
        invariant Concatenation(ret) + chunk == items[..idx]
        invariant forall k :: 0 <= k < |ret| ==> |ret[k]| == size
      {
        assert items[..idx + 1] == items[..idx] + [items[idx]];
        chunk := chunk + [items[idx]];
        assert Concatenation(ret) + chunk == items[..idx + 1];
        i := i + 1;
        if i > n {
          ConcatenationPush(ret, chunk);
          i, ret := 1, ret + [chunk];
          chunk := [];
        }
      }
      if |chunk| > 0 {
        ConcatenationPush(ret, chunk);
        ret := ret + [chunk];
      }
      assert items[..|items|] == items;
    }

    /**
     * A fresh collection with the first occurrence of every value. The inner
     * loop of the source, which pushes only when no other position holds an
     * equal value, is kept; it runs only when an earlier equal value exists,
     * so its push never happens.
     */
    method Uniq() returns (r: SliceCollection<T>)
      ensures fresh(r) && r.items == Dedup(items)
    {
      var xs := items;
      var ret := new SliceCollection<T>([]);
      for i := 0 to |xs|
        invariant fresh(ret) && ret.items == Dedup(xs[..i])
      {
        var v := xs[i];
        var has := ret.Contains(EqualTo(v));
        EqualToOccurs(ret.items, v);
        if !has {
          DedupStep(xs, i);
          ret.Push(v);
          continue;
        }
        ghost var w :| 0 <= w < i && xs[..i][w] == v;
        var isEqual := false;
        for j := 0 to |xs|
          invariant w < j ==> isEqual
        {
          if i != j && v == xs[j] {
            isEqual := true;
          }
        }
        if !isEqual {
          // The source pushes v here; an earlier position holds v, so this is unreachable.
          assert false;
        }
        DedupStep(xs, i);
      }
      assert xs[..|xs|] == xs;
      r := ret;
    }

    /** The indices 0 .. Len() - 1. */
    method Keys() returns (r: seq<int>)
      ensures |r| == |items| && forall k :: 0 <= k < |r| ==> r[k] == k
    {
      r := [];
      for k := 0 to |items|
        invariant r == Range(k)
      {
        r := r + [k];
      }
    }

    /** A copy of the items. */
    method Values() returns (r: seq<T>)
      ensures r == items
    {
      r := [];
      for k := 0 to |items|
        invariant r == items[..k]
      {
        r := r + [items[k]];
      }
      assert items[..|items|] == items;
    }

    /**
     * A fresh collection of the items at the listed indices, in the order
     * of the list, repetitions kept, indices past the end skipped. A
     * negative index panics in the source.
     */
    method Only(keys: seq<int>) returns (r: SliceCollection<T>)
      requires forall j :: 0 <= j < |keys| ==> keys[j] >= 0
      ensures fresh(r) && r.items == Picked(items, keys)
    {
      var ret := [];
      for j := 0 to |keys|
        invariant ret == Picked(items, keys[..j])
      {
        assert keys[..j + 1][..j] == keys[..j];
        var v := Get(keys[j]);
        if v.Some? {
          ret := ret + [v.value];
        }
      }
      assert keys[..|keys|] == keys;
      r := new SliceCollection(ret);
    }

    /** A fresh collection of the items whose index is not listed, in ascending index order. */
    method Except(keys: seq<int>) returns (r: SliceCollection<T>)
      ensures fresh(r) && r.items == Filtered(items, IndexNotIn(keys))
    {
      var ret := [];
      var indices := Keys();
      var ks := new SliceCollection(indices);
      var d := ks.Diff(keys);
      assert indices == Range(|items|);
      var rest := d.All();
      for j := 0 to |rest|
        invariant ret == Picked(items, rest[..j])
      {
        assert rest[..j + 1][..j] == rest[..j];
        assert rest[j] in rest;
        var v := Get(rest[j]);
        if v.Some? {
          ret := ret + [v.value];
        }
      }
      assert rest[..|rest|] == rest;
      PickedUnlisted(items, keys, |items|);
      assert items[..|items|] == items;
      r := new SliceCollection(ret);
    }
  }

  /** Push followed by Pop returns the pushed value and restores the items. */
  method PushThenPop<T(==)>(c: SliceCollection<T>, v: T) returns (r: Option<T>)
    modifies c
    ensures r == Some(v) && c.items == old(c.items)
  {
    c.Push(v);
    r := c.Pop();
  }

  /**
   * Map as written on [1, 2, 3] with v + 1: three zero values come first,
   * so the result is not the [2, 3, 4] its test expects.
   */
  method MapAsWrittenPadsZeros() returns (r: seq<int>)
    ensures r == [0, 0, 0, 2, 3, 4] && r != [2, 3, 4]
  {
    var c := new SliceCollection([1, 2, 3]);
    var mapped := c.Map((v: int, i: int) => v + 1, 0);
    r := mapped.items;
    assert c.items[0] == 1 && c.items[1] == 2 && c.items[2] == 3;
    assert r[0] == 0 && r[1] == 0 && r[2] == 0;
    assert r[3] == 2 && r[4] == 3 && r[5] == 4;
  }

  /** The corrected Map on the same input gives what the test expects. */
  method MapIntendedExample() returns (r: seq<int>)
    ensures r == [2, 3, 4]
  {
    var c := new SliceCollection([1, 2, 3]);
    var mapped := c.MapIntended((v: int, i: int) => v + 1);
    r := mapped.items;
    assert r[0] == 2 && r[1] == 3 && r[2] == 4;
  }

  // -----------------------------------------------------------------------
  // Free functions on plain sequences

  /** Left fold over d, each element with its index. */
  method Reduce<T, R>(d: seq<T>, h: (T, R, int) -> R, init: R) returns (r: R)
    ensures r == FoldLeft(d, h, init)
  {
    r := init;
    for i := 0 to |d|
      invariant r == FoldLeft(d[..i], h, init)
    {
      assert d[..i + 1][..i] == d[..i];
      r := h(d[i], r, i);
    }
    assert d[..|d|] == d;
  }

  /** The results of it on every item, concatenated in item order. */
  method FlatMap<T, R>(items: seq<T>, it: (T, int) -> seq<R>) returns (result: seq<R>)
    ensures result == Concatenation(ApplyIndexed(items, it))
  {
    result := [];
    for i := 0 to |items|
      invariant result == Concatenation(ApplyIndexed(items[..i], it))
    {
      assert ApplyIndexed(items[..i + 1], it)[..i] == ApplyIndexed(items[..i], it);
      result := result + it(items[i], i);
    }
    assert items[..|items|] == items;
  }

  /** Each key that `it` produces, mapped to the items producing it, in item order. */
  method GroupBy<T, U(==)>(items: seq<T>, it: (T, int) -> U) returns (result: map<U, seq<T>>)
    ensures forall k :: k in result <==> exists i :: 0 <= i < |items| && it(items[i], i) == k
    ensures forall k :: k in result ==> result[k] == Filtered(items, KeyIs(it, k))
  {
    result := map[];
    for i := 0 to |items|
      invariant forall k :: k in result <==> exists j :: 0 <= j < i && it(items[j], j) == k
      invariant forall k :: k in result ==> result[k] == Filtered(items[..i], KeyIs(it, k))
    {
      var item := items[i];
      var key := it(item, i);
      assert items[..i + 1][..i] == items[..i];
      forall k ensures Filtered(items[..i + 1], KeyIs(it, k)) ==
                       Filtered(items[..i], KeyIs(it, k)) + (if key == k then [item] else [])
      {
        FilteredLast(items[..i + 1], KeyIs(it, k));
      }
      ghost var before := result;
      if key !in result {
        FilteredNone(items[..i], KeyIs(it, key));
        result := result[key := []];
      }
      assert result[key] == Filtered(items[..i], KeyIs(it, key));
      result := result[key := result[key] + [item]];
      forall k | k in result
        ensures result[k] == Filtered(items[..i + 1], KeyIs(it, k))
      {
        if k != key {
          assert k in before && result[k] == before[k];
        }
      }
    }
    assert items[..|items|] == items;
  }

  /** Each key that fn produces, mapped to the last item producing it. */
  method KeyBy<K(==), V>(items: seq<V>, fn: V -> K) returns (result: map<K, V>)
    ensures forall k :: k in result <==> exists i :: 0 <= i < |items| && fn(items[i]) == k
    ensures forall i :: 0 <= i < |items| && (forall j :: i < j < |items| ==> fn(items[j]) != fn(items[i])) ==>
      fn(items[i]) in result && result[fn(items[i])] == items[i]
  {
    result := map[];
    for i := 0 to |items|
      invariant forall k :: k in result <==> exists j :: 0 <= j < i && fn(items[j]) == k
      invariant forall j :: 0 <= j < i && (forall l :: j < l < i ==> fn(items[l]) != fn(items[j])) ==>
        fn(items[j]) in result && result[fn(items[j])] == items[j]
    {
      var v := items[i];
      var k := fn(v);
      ghost var before := result;
      result := result[k := v];
      forall j | 0 <= j <= i && (forall l :: j < l <= i ==> fn(items[l]) != fn(items[j]))
        ensures fn(items[j]) in result && result[fn(items[j])] == items[j]
      {
        if j < i {
          assert fn(items[j]) != k;
          assert fn(items[j]) in before && before[fn(items[j])] == items[j];
        }
      }
    }
  }

  /** The inner sequences one after the other. */
  method Flatten<T>(items: seq<seq<T>>) returns (result: seq<T>)
    ensures result == Concatenation(items)
  {
    result := [];
    for i := 0 to |items|
      invariant result == Concatenation(items[..i])
    {
      assert items[..i + 1][..i] == items[..i];
      result := result + items[i];
    }
    assert items[..|items|] == items;
  }
}
