/**
 * Types shared by the sequence and the map collections: the result of a
 * lookup that may fail, and the key/value pair that moves data into and out
 * of a map collection.
 */
module Collection {

  /**
   * The library's "(value, found)" convention: `None` is found = false,
   * `Some(v)` is found = true with value v.
   */
  datatype Option<T> = None | Some(value: T)

  /** A key/value pair (types.go). */
  datatype Entry<K, V> = Entry(key: K, value: V)

  /** The keys that occur in a list of entries. */
  function KeysOf<K, V>(es: seq<Entry<K, V>>): set<K>
  {
    set i | 0 <= i < |es| :: es[i].key
  }

  /**
   * The map obtained by writing the entries one after the other, so that a
   * later entry overwrites an earlier one with the same key.
   */
  function LastWins<K, V>(es: seq<Entry<K, V>>): (m: map<K, V>)
    ensures m.Keys == KeysOf(es)
  {
    if es == [] then map[]
    else
      var n := |es| - 1;
      assert KeysOf(es) == KeysOf(es[..n]) + {es[n].key} by {
        forall k | k in KeysOf(es) ensures k in KeysOf(es[..n]) + {es[n].key} {
          var i :| 0 <= i < |es| && es[i].key == k;
          if i < n { assert es[..n][i].key == k; }
        }
        forall k | k in KeysOf(es[..n]) ensures k in KeysOf(es) {
          var i :| 0 <= i < n && es[..n][i].key == k;
          assert es[i].key == k;
        }
      }
      LastWins(es[..n])[es[n].key := es[n].value]
  }

  /** The value a key receives is the value of the last entry that carries it. */
  lemma {:induction false} LastWinsAt<K, V>(es: seq<Entry<K, V>>, i: int)
    requires 0 <= i < |es|
    requires forall j :: i < j < |es| ==> es[j].key != es[i].key
    ensures es[i].key in LastWins(es) && LastWins(es)[es[i].key] == es[i].value
  {
    var n := |es| - 1;
    if i < n {
      LastWinsAt(es[..n], i);
    }
  }
}
