/**
 * Reference definitions on plain sequences. The operations of the sequence
 * collection and the free functions are proved against these, and the
 * lemmas here say what the definitions mean.
 *
 * The recursive definitions peel off the LAST element, so that a loop that
 * appends to an accumulator while walking the input from the front keeps the
 * invariant "accumulator == Definition(prefix walked so far)".
 */
module Seqs {

  /** No value occurs twice. */
  predicate Distinct<T(==)>(s: seq<T>)
  {
    forall i, j :: 0 <= i < j < |s| ==> s[i] != s[j]
  }

  /** The indices 0, 1, ..., n - 1. */
  function Range(n: nat): seq<int>
  {
    seq(n, i => i)
  }

  /** f applied to every element together with its index. */
  function ApplyIndexed<T, U>(s: seq<T>, f: (T, int) -> U): seq<U>
  {
    seq(|s|, i requires 0 <= i < |s| => f(s[i], i))
  }

  // ---------------------------------------------------------------------
  // Selection by a predicate over (value, index)

  /** The elements s[i] for which p(s[i], i) holds, in their original order. */
  function Filtered<T>(s: seq<T>, p: (T, int) -> bool): (r: seq<T>)
    ensures |r| <= |s|
    ensures forall x :: x in r ==> exists i :: 0 <= i < |s| && s[i] == x && p(x, i)
  {
    if s == [] then []
    else
      var n := |s| - 1;
      var r := Filtered(s[..n], p);
      assert forall x :: x in r ==> exists i :: 0 <= i < n && s[i] == x && p(x, i) by {
        forall x | x in r ensures exists i :: 0 <= i < n && s[i] == x && p(x, i) {
          var i :| 0 <= i < |s[..n]| && s[..n][i] == x && p(x, i);
          assert s[i] == x;
        }
      }
      r + (if p(s[n], n) then [s[n]] else [])
  }

  /** Nothing is kept when no element satisfies p. */
  lemma {:induction false} FilteredNone<T>(s: seq<T>, p: (T, int) -> bool)
    requires forall i :: 0 <= i < |s| ==> !p(s[i], i)
    ensures Filtered(s, p) == []
  {
    if s != [] {
      FilteredNone(s[..|s| - 1], p);
    }
  }

  /** The positions i with p(s[i], i), ascending. */
  ghost function Positions<T>(s: seq<T>, p: (T, int) -> bool): seq<int>
  {
    if s == [] then []
    else
      var n := |s| - 1;
      Positions(s[..n], p) + (if p(s[n], n) then [n] else [])
  }

  /**
   * Filtered keeps exactly the positions where p holds, each once and in
   * ascending order: it is the subsequence of s at those positions.
   */
  lemma {:induction false} FilteredPositions<T>(s: seq<T>, p: (T, int) -> bool)
    ensures |Positions(s, p)| == |Filtered(s, p)|
    ensures forall j :: 0 <= j < |Positions(s, p)| ==>
      0 <= Positions(s, p)[j] < |s| && Filtered(s, p)[j] == s[Positions(s, p)[j]]
    ensures forall j, k :: 0 <= j < k < |Positions(s, p)| ==> Positions(s, p)[j] < Positions(s, p)[k]
    ensures forall i :: 0 <= i < |s| ==> (p(s[i], i) <==> i in Positions(s, p))
  {
    if s != [] {
      var n := |s| - 1;
      var t := s[..n];
      FilteredPositions(t, p);
      var ix, r := Positions(t, p), Filtered(t, p);
      assert forall j :: 0 <= j < |ix| ==> ix[j] < n;
      assert forall i :: 0 <= i < n ==> s[i] == t[i];
      if p(s[n], n) {
        assert Positions(s, p) == ix + [n];
        assert Filtered(s, p) == r + [s[n]];
      } else {
        assert Positions(s, p) == ix;
        assert Filtered(s, p) == r;
      }
    }
  }

  /** Keeps the elements whose value does not satisfy p; the index is ignored. */
  function Rejecting<T>(p: T -> bool): (T, int) -> bool
  {
    (v: T, i: int) => !p(v)
  }

  /** Keeps the elements whose value occurs nowhere in target. */
  function NotIn<T(==)>(target: seq<T>): (T, int) -> bool
  {
    (v: T, i: int) => v !in target
  }

  /** Keeps the elements whose index is not listed in keys. */
  function IndexNotIn<T>(keys: seq<int>): (T, int) -> bool
  {
    (v: T, i: int) => i !in keys
  }

  /** Holds of the elements equal to v; the index is ignored. */
  function EqualTo<T(==)>(v: T): (T, int) -> bool
  {
    (x: T, k: int) => x == v
  }

  /** Some element satisfies EqualTo(v) exactly when v occurs. */
  lemma EqualToOccurs<T>(s: seq<T>, v: T)
    ensures (exists j :: 0 <= j < |s| && EqualTo(v)(s[j], j)) <==> v in s
  {
  }

  /** Keeps the elements that fn sends to the key k. */
  function KeyIs<T, U(==)>(fn: (T, int) -> U, k: U): (T, int) -> bool
  {
    (v: T, i: int) => fn(v, i) == k
  }

  /** Keeps an element when no equal value stands before it in s. */
  function FirstOccurrence<T(==)>(s: seq<T>): (T, int) -> bool
  {
    (v: T, i: int) => 0 <= i <= |s| && v !in s[..i]
  }

  // ---------------------------------------------------------------------
  // De-duplication

  /** The first occurrence of every value of s, in first-occurrence order. */
  function Dedup<T(==)>(s: seq<T>): (r: seq<T>)
    ensures forall x :: x in r ==> x in s
    ensures forall i :: 0 <= i < |s| ==> s[i] in r
  {
    if s == [] then []
    else
      var n := |s| - 1;
      assert s == s[..n] + [s[n]];
      if s[n] in s[..n] then Dedup(s[..n]) else Dedup(s[..n]) + [s[n]]
  }

  /** A de-duplicated sequence holds every value at most once. */
  lemma {:induction false} DedupDistinct<T>(s: seq<T>)
    ensures Distinct(Dedup(s))
  {
    if s != [] {
      var n := |s| - 1;
      DedupDistinct(s[..n]);
    }
  }

  /** One more element is kept exactly when its value has not been kept already. */
  lemma DedupStep<T>(s: seq<T>, i: nat)
    requires i < |s|
    ensures s[i] in Dedup(s[..i]) <==> s[i] in s[..i]
    ensures Dedup(s[..i + 1]) == if s[i] in Dedup(s[..i]) then Dedup(s[..i]) else Dedup(s[..i]) + [s[i]]
  {
    assert s[..i + 1][..i] == s[..i];
    if s[i] in s[..i] {
      var j :| 0 <= j < i && s[..i][j] == s[i];
    }
  }

  lemma {:induction false} DedupPrefix<T>(s: seq<T>, n: nat)
    requires n <= |s|
    ensures Dedup(s[..n]) == Filtered(s[..n], FirstOccurrence(s))
  {
    if n > 0 {
      DedupPrefix(s, n - 1);
      assert s[..n][..n - 1] == s[..n - 1];
    }
  }

  /**
   * Dedup keeps exactly the elements that are the first occurrence of their
   * value; with FilteredPositions this says it lists them in the order of
   * their first occurrence.
   */
  lemma DedupKeepsFirstOccurrences<T>(s: seq<T>)
    ensures Dedup(s) == Filtered(s, FirstOccurrence(s))
  {
    DedupPrefix(s, |s|);
    assert s[..|s|] == s;
  }

  // ---------------------------------------------------------------------
  // Concatenation of a sequence of sequences

  /** The inner sequences one after the other. */
  function Concatenation<T>(ss: seq<seq<T>>): seq<T>
  {
    if ss == [] then [] else Concatenation(ss[..|ss| - 1]) + ss[|ss| - 1]
  }

  /** Adding one more part appends it to the concatenation. */
  lemma ConcatenationPush<T>(ss: seq<seq<T>>, c: seq<T>)
    ensures Concatenation(ss + [c]) == Concatenation(ss) + c
  {
  }

  lemma {:induction false} ConcatenationAppend<T>(a: seq<seq<T>>, b: seq<seq<T>>)
    ensures Concatenation(a + b) == Concatenation(a) + Concatenation(b)
  {
    if b == [] {
      assert a + b == a;
    } else {
      var n := |b| - 1;
      ConcatenationAppend(a, b[..n]);
      assert (a + b)[..|a + b| - 1] == a + b[..n];
    }
  }

  /** A value occurs in the concatenation exactly when it occurs in one of the parts. */
  lemma {:induction false} ConcatenationMembers<T>(ss: seq<seq<T>>, x: T)
    ensures x in Concatenation(ss) <==> exists j :: 0 <= j < |ss| && x in ss[j]
  {
    if ss != [] {
      var n := |ss| - 1;
      var init := ss[..n];
      ConcatenationMembers(init, x);
      assert Concatenation(ss) == Concatenation(init) + ss[n];
      if x in Concatenation(init) {
        var j :| 0 <= j < n && x in init[j];
        assert x in ss[j];
      } else if x !in ss[n] {
        forall j | 0 <= j < |ss| ensures x !in ss[j] {
          if j < n {
            assert init[j] == ss[j];
          }
        }
      }
    }
  }

  // ---------------------------------------------------------------------
  // Reversal

  function Reversed<T>(s: seq<T>): (r: seq<T>)
    ensures |r| == |s|
  {
    if s == [] then [] else Reversed(s[1..]) + [s[0]]
  }

  /** Position k of the reversal holds the element at the mirrored position. */
  lemma {:induction false} ReversedAt<T>(s: seq<T>, k: int)
    requires 0 <= k < |s|
    ensures Reversed(s)[k] == s[|s| - 1 - k]
  {
    if k < |s| - 1 {
      ReversedAt(s[1..], k);
    }
  }

  /** Reversal is a permutation. */
  lemma {:induction false} ReversedPermutes<T>(s: seq<T>)
    ensures multiset(Reversed(s)) == multiset(s)
  {
    if s != [] {
      ReversedPermutes(s[1..]);
      assert s == [s[0]] + s[1..];
    }
  }

  // ---------------------------------------------------------------------
  // Left fold

  /** f folded over s from the left, each element with its index. */
  function FoldLeft<T, R>(s: seq<T>, f: (T, R, int) -> R, init: R): R
  {
    if s == [] then init
    else
      var n := |s| - 1;
      f(s[n], FoldLeft(s[..n], f, init), n)
  }

  /** The step function that records which element and index it was given. */
  function Trace<T>(): (T, seq<(T, int)>, int) -> seq<(T, int)>
  {
    (v: T, acc: seq<(T, int)>, i: int) => acc + [(v, i)]
  }

  /**
   * FoldLeft calls its step function once per element, in index order,
   * with the element's own index.
   */
  lemma {:induction false} FoldLeftVisitsInOrder<T>(s: seq<T>)
    ensures FoldLeft(s, Trace<T>(), []) == seq(|s|, i requires 0 <= i < |s| => (s[i], i))
  {
    if s != [] {
      var n := |s| - 1;
      FoldLeftVisitsInOrder(s[..n]);
    }
  }

  // ---------------------------------------------------------------------
  // Projection onto a list of indices

  /** The elements at the listed indices, in the order of the list; indices outside s are skipped. */
  function Picked<T>(s: seq<T>, keys: seq<int>): seq<T>
  {
    if keys == [] then []
    else
      var n := |keys| - 1;
      Picked(s, keys[..n]) + (if 0 <= keys[n] < |s| then [s[keys[n]]] else [])
  }

  /** Keeps the indices that lie inside a sequence of length n. */
  function Below(n: int): (int, int) -> bool
  {
    (k: int, i: int) => 0 <= k < n
  }

  /**
   * Picked is s read at every listed index that is in bounds, in the order
   * of the list, repetitions included.
   */
  lemma {:induction false} PickedSelects<T>(s: seq<T>, keys: seq<int>)
    ensures |Picked(s, keys)| == |Filtered(keys, Below(|s|))|
    ensures forall j :: 0 <= j < |Picked(s, keys)| ==>
      0 <= Filtered(keys, Below(|s|))[j] < |s| && Picked(s, keys)[j] == s[Filtered(keys, Below(|s|))[j]]
  {
    if keys != [] {
      var n := |keys| - 1;
      PickedSelects(s, keys[..n]);
      var ks := Filtered(keys[..n], Below(|s|));
      assert forall j :: 0 <= j < |ks| ==> ks[j] in ks;
    }
  }

  /**
   * Reading s at the indices of 0..|s|-1 not listed in keys, in ascending
   * order, gives the elements whose index is not listed.
   */
  lemma {:induction false} PickedUnlisted<T>(s: seq<T>, keys: seq<int>, n: nat)
    requires n <= |s|
    ensures Picked(s, Filtered(Range(n), NotIn(keys))) == Filtered(s[..n], IndexNotIn(keys))
  {
    if n > 0 {
      PickedUnlisted(s, keys, n - 1);
      UnlistedIndicesLast(keys, n);
      UnlistedElementsLast(s, keys, n);
      var ks := Filtered(Range(n - 1), NotIn(keys));
      var es := Filtered(s[..n - 1], IndexNotIn(keys));
      if n - 1 !in keys {
        PickedLast(s, ks, n - 1);
      } else {
        assert ks + [] == ks && es + [] == es;
      }
    }
  }

  /** The unlisted indices below n: those below n - 1, then n - 1 unless it is listed. */
  lemma UnlistedIndicesLast(keys: seq<int>, n: nat)
    requires n > 0
    ensures Filtered(Range(n), NotIn(keys)) ==
      Filtered(Range(n - 1), NotIn(keys)) + (if n - 1 !in keys then [n - 1] else [])
  {
    FilteredLast(Range(n), NotIn(keys));
    assert Range(n)[..n - 1] == Range(n - 1);
  }

  /** The elements of s[..n] with an unlisted index: those of s[..n - 1], then s[n - 1] unless n - 1 is listed. */
  lemma UnlistedElementsLast<T>(s: seq<T>, keys: seq<int>, n: nat)
    requires 0 < n <= |s|
    ensures Filtered(s[..n], IndexNotIn(keys)) ==
      Filtered(s[..n - 1], IndexNotIn(keys)) + (if n - 1 !in keys then [s[n - 1]] else [])
  {
    FilteredLast(s[..n], IndexNotIn(keys));
    assert s[..n][..n - 1] == s[..n - 1];
  }

  /** Selection over a non-empty sequence: the selection of all but the last element, then the last if kept. */
  lemma FilteredLast<T>(s: seq<T>, p: (T, int) -> bool)
    requires s != []
    ensures Filtered(s, p) ==
      Filtered(s[..|s| - 1], p) + (if p(s[|s| - 1], |s| - 1) then [s[|s| - 1]] else [])
  {
  }

  /** Listing one more index reads one more element, when that index is in bounds. */
  lemma PickedLast<T>(s: seq<T>, keys: seq<int>, k: int)
    ensures Picked(s, keys + [k]) == Picked(s, keys) + (if 0 <= k < |s| then [s[k]] else [])
  {
  }

  // ---------------------------------------------------------------------
  // Joining strings

  /** The strings one after the other with sep between neighbours; empty for no strings. */
  function JoinStrings(ss: seq<string>, sep: string): string
  {
    if ss == [] then ""
    else if |ss| == 1 then ss[0]
    else JoinStrings(ss[..|ss| - 1], sep) + sep + ss[|ss| - 1]
  }

  /** Each string preceded by the separator. */
  function WithSeparator(ts: seq<string>, sep: string): seq<string>
  {
    seq(|ts|, i requires 0 <= i < |ts| => sep + ts[i])
  }

  /**
   * The joined string is the first part followed by every later part, each
   * preceded by the separator, in order.
   */
  lemma {:induction false} JoinStringsParts(ss: seq<string>, sep: string)
    requires ss != []
    ensures JoinStrings(ss, sep) == ss[0] + Concatenation(WithSeparator(ss[1..], sep))
  {
    if |ss| == 1 {
      assert ss[1..] == [];
      assert ss[0] + Concatenation(WithSeparator(ss[1..], sep)) == ss[0];
    } else {
      var n := |ss| - 1;
      JoinStringsParts(ss[..n], sep);
      var w := WithSeparator(ss[1..], sep);
      assert w[..|w| - 1] == WithSeparator(ss[..n][1..], sep);
      assert w[|w| - 1] == sep + ss[n];
      calc {
        JoinStrings(ss, sep);
        JoinStrings(ss[..n], sep) + sep + ss[n];
        ss[0] + Concatenation(w[..|w| - 1]) + (sep + ss[n]);
        ss[0] + Concatenation(w);
      }
    }
  }

  /** The joined string is as long as all parts together plus one separator between each two neighbours. */
  lemma {:induction false} JoinStringsLength(ss: seq<string>, sep: string)
    requires ss != []
    ensures |JoinStrings(ss, sep)| == |Concatenation(ss)| + (|ss| - 1) * |sep|
  {
    if |ss| == 1 {
      assert ss[..0] == [];
    } else {
      var n := |ss| - 1;
      JoinStringsLength(ss[..n], sep);
      assert (|ss| - 1) * |sep| == (|ss| - 2) * |sep| + |sep|;
    }
  }
}
