/**
 * Sequence facts shared by the model. Duplicate removal is in first-seen
 * order, as `Array.from(new Set(xs))` does in JavaScript: a Set iterates its
 * members in insertion order and ignores an insertion of a member it already
 * has.
 */
module Sequences {

  /** `t` stands in `s` at position `p`. */
  predicate OccursAt<T(==)>(s: seq<T>, t: seq<T>, p: nat) {
    p + |t| <= |s| && s[p..p + |t|] == t
  }

  predicate NoDup<T(==)>(xs: seq<T>) {
    forall i, j :: 0 <= i < j < |xs| ==> xs[i] != xs[j]
  }

  /** The position of the first occurrence of `x` in `xs`. */
  function FirstIndex<T(==)>(xs: seq<T>, x: T): (k: nat)
    requires x in xs
    ensures k < |xs| && xs[k] == x && x !in xs[..k]
  {
    if xs[0] == x then 0
    else
      var k := 1 + FirstIndex(xs[1..], x);
      assert xs[..k] == [xs[0]] + xs[1..][..k - 1];
      k
  }

  /** `Array.from(new Set(xs))`: each element once, at the place it was first seen. */
  function Dedup<T(==)>(xs: seq<T>): (r: seq<T>)
    ensures NoDup(r)
    ensures forall k :: 0 <= k < |r| ==> r[k] in xs
    ensures forall k :: 0 <= k < |xs| ==> xs[k] in r
  {
    if xs == [] then []
    else
      var last := xs[|xs| - 1];
      var d := Dedup(xs[..|xs| - 1]);
      assert xs == xs[..|xs| - 1] + [last];
      if last in d then d else d + [last]
  }

  /** The first index is the only index that is an occurrence with none before it. */
  lemma FirstIndexUnique<T>(xs: seq<T>, x: T, k: nat)
    requires k < |xs| && xs[k] == x && x !in xs[..k]
    ensures FirstIndex(xs, x) == k
  {
  }

  /** Appending to a sequence does not move the first occurrence of an element already in it. */
  lemma FirstIndexAppend<T>(xs: seq<T>, y: T, x: T)
    requires x in xs
    ensures FirstIndex(xs + [y], x) == FirstIndex(xs, x)
  {
    var k := FirstIndex(xs, x);
    assert (xs + [y])[..k] == xs[..k];
    FirstIndexUnique(xs + [y], x, k);
  }

  /**
   * The result lists the distinct elements in the order of their first
   * occurrence in the input.
   */
  lemma {:induction false} DedupFirstSeenOrder<T>(xs: seq<T>, i: nat, j: nat)
    requires i < j < |Dedup(xs)|
    ensures FirstIndex(xs, Dedup(xs)[i]) < FirstIndex(xs, Dedup(xs)[j])
  {
    var n := |xs|;
    var p := xs[..n - 1];
    var last := xs[n - 1];
    var d := Dedup(p);
    assert xs == p + [last];
    if j < |d| {
      assert Dedup(xs)[i] == d[i] && Dedup(xs)[j] == d[j];
      DedupFirstSeenOrder(p, i, j);
      FirstIndexAppend(p, last, d[i]);
      FirstIndexAppend(p, last, d[j]);
    } else {
      assert last !in d && Dedup(xs) == d + [last] && j == |d|;
      assert last !in p;
      FirstIndexUnique(xs, last, n - 1);
      FirstIndexAppend(p, last, d[i]);
    }
  }

  /** A sequence without duplicates is its own deduplication. */
  lemma {:induction false} DedupOfDistinct<T>(xs: seq<T>)
    requires NoDup(xs)
    ensures Dedup(xs) == xs
  {
    if xs != [] {
      var p := xs[..|xs| - 1];
      assert NoDup(p);
      DedupOfDistinct(p);
      assert xs[|xs| - 1] !in p;
      assert xs == p + [xs[|xs| - 1]];
    }
  }
}
