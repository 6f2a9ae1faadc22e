/**
 * The editor's `colorMap: Record<string, string>`. A JavaScript object whose
 * keys are not array indices (a hex token starts with `#`, so none is)
 * enumerates its entries in insertion order, and assigning to a key it
 * already has keeps that key's place. The object is therefore a sequence of
 * entries with distinct keys.
 */
module ColorMaps {
  import opened Wrappers
  import opened Sequences

  /** `[original, current]`, as `Object.entries` yields it. */
  datatype Entry = Entry(original: string, current: string)

  type ColorMap = seq<Entry>

  function Keys(m: ColorMap): seq<string> {
    seq(|m|, j requires 0 <= j < |m| => m[j].original)
  }

  /** `m[k]`: the value of the entry for `k`, if there is one. */
  function Lookup(m: ColorMap, k: string): (r: Option<string>)
    ensures r.Some? <==> k in Keys(m)
  {
    if m == [] then None
    else
      assert Keys(m) == [m[0].original] + Keys(m[1..]);
      if m[0].original == k then Some(m[0].current) else Lookup(m[1..], k)
  }

  /** `{ ...m, [k]: v }`: overwrite the entry for `k` in place, or append one. */
  function Put(m: ColorMap, k: string, v: string): ColorMap {
    if m == [] then [Entry(k, v)]
    else if m[0].original == k then [Entry(k, v)] + m[1..]
    else [m[0]] + Put(m[1..], k, v)
  }

  /** The map built by `colors.forEach(c => map[c] = c)` over distinct colours. */
  function IdentityOf(colors: seq<string>): ColorMap {
    seq(|colors|, j requires 0 <= j < |colors| => Entry(colors[j], colors[j]))
  }

  /** Every colour is mapped to itself. */
  predicate IsIdentity(m: ColorMap) {
    forall j :: 0 <= j < |m| ==> m[j].current == m[j].original
  }

  lemma IdentityOfIsIdentity(colors: seq<string>)
    ensures Keys(IdentityOf(colors)) == colors
    ensures IsIdentity(IdentityOf(colors))
  {
  }

  /** Assigning a new key appends it, after every existing entry. */
  lemma {:induction false} PutAbsent(m: ColorMap, k: string, v: string)
    requires k !in Keys(m)
    ensures Put(m, k, v) == m + [Entry(k, v)]
  {
    if m != [] {
      assert Keys(m) == [m[0].original] + Keys(m[1..]);
      PutAbsent(m[1..], k, v);
      assert m == [m[0]] + m[1..];
    }
  }

  /**
   * Assigning an existing key changes the value of that one entry: every
   * other entry, and the order of all keys, stay as they were.
   */
  lemma {:induction false} PutPresent(m: ColorMap, k: string, v: string)
    requires NoDup(Keys(m)) && k in Keys(m)
    ensures |Put(m, k, v)| == |m|
    ensures forall j :: 0 <= j < |m| ==>
      Put(m, k, v)[j] == if m[j].original == k then Entry(k, v) else m[j]
  {
    assert Keys(m) == [m[0].original] + Keys(m[1..]);
    if m[0].original == k {
      forall j | 1 <= j < |m| ensures m[j].original != k {
        assert Keys(m)[0] == k && Keys(m)[j] == m[j].original;
      }
    } else {
      assert NoDup(Keys(m[1..])) by {
        forall i, j | 0 <= i < j < |m| - 1 ensures Keys(m[1..])[i] != Keys(m[1..])[j] {
          assert Keys(m)[i + 1] != Keys(m)[j + 1];
        }
      }
      PutPresent(m[1..], k, v);
    }
  }

  /** Putting never loses a key and adds at most the one it assigns. */
  lemma PutKeys(m: ColorMap, k: string, v: string)
    requires NoDup(Keys(m))
    ensures Keys(Put(m, k, v)) == if k in Keys(m) then Keys(m) else Keys(m) + [k]
    ensures NoDup(Keys(Put(m, k, v)))
    ensures Lookup(Put(m, k, v), k) == Some(v)
  {
    if k in Keys(m) {
      PutPresent(m, k, v);
      var j := FirstIndex(Keys(m), k);
      assert Put(m, k, v)[j] == Entry(k, v);
      assert Keys(Put(m, k, v)) == Keys(m);
      LookupAt(Put(m, k, v), j);
    } else {
      PutAbsent(m, k, v);
      assert Keys(m + [Entry(k, v)]) == Keys(m) + [k];
      LookupAt(Put(m, k, v), |m|);
    }
  }

  /** Assigning a key that has an entry rewrites the first entry for it, where it stands. */
  lemma {:induction false} PutReplacesFirst(m: ColorMap, k: string, v: string)
    requires k in Keys(m)
    ensures var j := FirstIndex(Keys(m), k);
      Put(m, k, v) == m[..j] + [Entry(k, v)] + m[j + 1..]
  {
    assert Keys(m)[0] == m[0].original;
    if m[0].original != k {
      var rest := m[1..];
      assert Keys(rest) == Keys(m)[1..];
      PutReplacesFirst(rest, k, v);
      var j := FirstIndex(Keys(rest), k);
      assert FirstIndex(Keys(m), k) == 1 + j;
      assert m[..j + 1] == [m[0]] + rest[..j];
      assert m[j + 2..] == rest[j + 1..];
    }
  }

  /**
   * `{ ...m, [k]: v }` over distinct keys: the entry for `k` takes `v` where
   * it stands and every other entry keeps its place and value, or a new entry
   * goes at the end; no other key's lookup changes.
   */
  lemma PutOverwritesOrAppends(m: ColorMap, k: string, v: string)
    requires NoDup(Keys(m))
    ensures k in Keys(m) ==> |Put(m, k, v)| == |m|
    ensures k in Keys(m) ==> forall j :: 0 <= j < |m| ==>
      Put(m, k, v)[j] == if m[j].original == k then Entry(k, v) else m[j]
    ensures k !in Keys(m) ==> Put(m, k, v) == m + [Entry(k, v)]
    ensures Keys(m) <= Keys(Put(m, k, v)) && NoDup(Keys(Put(m, k, v)))
    ensures Lookup(Put(m, k, v), k) == Some(v)
    ensures forall k' :: k' != k ==> Lookup(Put(m, k, v), k') == Lookup(m, k')
  {
    PutKeys(m, k, v);
    if k in Keys(m) {
      PutPresent(m, k, v);
    } else {
      PutAbsent(m, k, v);
    }
    forall k' | k' != k
      ensures Lookup(Put(m, k, v), k') == Lookup(m, k')
    {
      PutOther(m, k, v, k');
    }
  }

  /** With distinct keys, the lookup of an entry's key finds that entry. */
  lemma {:induction false} LookupAt(m: ColorMap, j: nat)
    requires NoDup(Keys(m)) && j < |m|
    ensures Lookup(m, m[j].original) == Some(m[j].current)
  {
    assert Keys(m)[0] == m[0].original && Keys(m)[j] == m[j].original;
    if j > 0 {
      assert NoDup(Keys(m[1..])) by {
        forall a, b | 0 <= a < b < |m| - 1 ensures Keys(m[1..])[a] != Keys(m[1..])[b] {
          assert Keys(m)[a + 1] != Keys(m)[b + 1];
        }
      }
      LookupAt(m[1..], j - 1);
    }
  }

  /** Assigning one key leaves the lookup of every other key as it was. */
  lemma {:induction false} PutOther(m: ColorMap, k: string, v: string, k': string)
    requires k' != k
    ensures Lookup(Put(m, k, v), k') == Lookup(m, k')
  {
    if m != [] && m[0].original != k {
      PutOther(m[1..], k, v, k');
    }
  }

  /** Re-assigning a colour to itself in an identity map changes nothing; a new colour is appended. */
  lemma PutIdentity(colors: seq<string>, c: string)
    ensures Put(IdentityOf(colors), c, c) == IdentityOf(if c in colors then colors else colors + [c])
  {
    var m := IdentityOf(colors);
    assert Keys(m) == colors;
    if c in colors {
      PutSame(m, c, FirstIndex(colors, c));
    } else {
      PutAbsent(m, c, c);
    }
  }

  /** Putting the value the first entry for a key already has changes nothing. */
  lemma {:induction false} PutSame(m: ColorMap, k: string, j: nat)
    requires j < |m| && m[j] == Entry(k, k) && k !in Keys(m)[..j]
    ensures Put(m, k, k) == m
  {
    if j > 0 {
      assert Keys(m)[0] == m[0].original;
      assert Keys(m)[..j] == [m[0].original] + Keys(m[1..])[..j - 1];
      PutSame(m[1..], k, j - 1);
    }
    assert m == [m[0]] + m[1..];
  }
}
