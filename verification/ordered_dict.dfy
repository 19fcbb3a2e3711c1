/** Python's `None`-or-value, used for lookups and for absent jump targets. */
module Options {
  datatype Option<+T> = None | Some(value: T)
}

/**
 * Python's built-in `dict` with the behaviour the survey builder relies
 * on: keys are unique, iteration follows first insertion, and assigning
 * to a present key replaces its value where it stands.  A dictionary is
 * its sequence of entries in iteration order.
 */
module OrderedDict {
  import opened Options

  type Dict<K, V> = seq<(K, V)>

  /** `k in d`. */
  predicate HasKey<K(==), V>(d: Dict<K, V>, k: K) {
    exists i :: 0 <= i < |d| && d[i].0 == k
  }

  /** No key occurs twice, as in every Python dict. */
  predicate DistinctKeys<K(==), V>(d: Dict<K, V>) {
    forall i, j :: 0 <= i < j < |d| ==> d[i].0 != d[j].0
  }

  /** The values, in iteration order (`d.values()`). */
  function Values<K, V>(d: Dict<K, V>): (vs: seq<V>)
    ensures |vs| == |d|
    ensures forall i :: 0 <= i < |d| ==> vs[i] == d[i].1
  {
    seq(|d|, i requires 0 <= i < |d| => d[i].1)
  }

  /**
   * The value stored under `k`, used to state what an assignment does:
   * the value of the first entry with key `k`, if there is one.
   */
  function Get<K(==), V>(d: Dict<K, V>, k: K): (r: Option<V>)
    ensures r == None <==> !HasKey(d, k)
    ensures r.Some? ==> exists i :: 0 <= i < |d| && d[i] == (k, r.value)
                                    && forall i' :: 0 <= i' < i ==> d[i'].0 != k
  {
    if d == [] then None
    else if d[0].0 == k then Some(d[0].1)
    else
      var r := Get(d[1..], k);
      assert r.Some? ==> exists i :: 0 <= i < |d| && d[i] == (k, r.value)
                                    && forall i' :: 0 <= i' < i ==> d[i'].0 != k by {
        if r.Some? {
          var i :| 0 <= i < |d[1..]| && d[1..][i] == (k, r.value)
                   && forall i' :: 0 <= i' < i ==> d[1..][i'].0 != k;
          assert d[i + 1] == (k, r.value);
          forall i' | 0 <= i' < i + 1 ensures d[i'].0 != k {
            if i' > 0 { assert d[i'] == d[1..][i' - 1]; }
          }
        }
      }
      assert HasKey(d, k) ==> HasKey(d[1..], k) by {
        if HasKey(d, k) {
          var i :| 0 <= i < |d| && d[i].0 == k;
          assert d[1..][i - 1].0 == k;
        }
      }
      assert HasKey(d[1..], k) ==> HasKey(d, k) by {
        if HasKey(d[1..], k) {
          var i :| 0 <= i < |d[1..]| && d[1..][i].0 == k;
          assert d[i + 1].0 == k;
        }
      }
      r
  }

  /**
   * The assignment `d[k] = v`: an absent key is appended at the end; a
   * present key keeps its place and takes the new value (InsertPresent).
   */
  function Insert<K(==), V>(d: Dict<K, V>, k: K, v: V): (r: Dict<K, V>)
    ensures !HasKey(d, k) ==> r == d + [(k, v)]
  {
    if d == [] then [(k, v)]
    else if d[0].0 == k then [(k, v)] + d[1..]
    else
      assert !HasKey(d, k) ==> !HasKey(d[1..], k) by {
        if HasKey(d[1..], k) {
          var i :| 0 <= i < |d[1..]| && d[1..][i].0 == k;
          assert d[i + 1].0 == k;
        }
      }
      [d[0]] + Insert(d[1..], k, v)
  }

  /** Assigning to a present key keeps every key in its place and stores the value. */
  lemma {:induction false} InsertPresent<K, V>(d: Dict<K, V>, k: K, v: V)
    requires HasKey(d, k)
    ensures |Insert(d, k, v)| == |d|
    ensures forall i :: 0 <= i < |d| ==> Insert(d, k, v)[i].0 == d[i].0
    ensures Get(Insert(d, k, v), k) == Some(v)
  {
    if d[0].0 != k {
      var i :| 0 <= i < |d| && d[i].0 == k;
      assert d[1..][i - 1].0 == k;
      InsertPresent(d[1..], k, v);
    }
  }

  /** Assigning to `k` leaves the value under every other key as it was. */
  lemma {:induction false} InsertKeepsOtherKeys<K, V>(d: Dict<K, V>, k: K, v: V, k': K)
    requires k' != k
    ensures Get(Insert(d, k, v), k') == Get(d, k')
  {
    if d != [] && d[0].0 != k {
      InsertKeepsOtherKeys(d[1..], k, v, k');
    }
  }

  /** The dictionary built by assigning the pairs of `ps` one after the other. */
  function FromPairs<K(==), V>(ps: seq<(K, V)>): Dict<K, V>
  {
    if ps == [] then []
    else Insert(FromPairs(ps[..|ps| - 1]), ps[|ps| - 1].0, ps[|ps| - 1].1)
  }

  /** One more assignment is one more insertion. */
  lemma FromPairsSnoc<K, V>(ps: seq<(K, V)>, k: K, v: V)
    ensures FromPairs(ps + [(k, v)]) == Insert(FromPairs(ps), k, v)
  {
    assert (ps + [(k, v)])[..|ps|] == ps;
  }

  /**
   * When no key is assigned twice, the dictionary iterates its entries in
   * exactly the order they were assigned.
   */
  lemma {:induction false} FromDistinctPairs<K, V>(ps: seq<(K, V)>)
    requires DistinctKeys(ps)
    ensures FromPairs(ps) == ps
  {
    if ps != [] {
      var init, last := ps[..|ps| - 1], ps[|ps| - 1];
      FromDistinctPairs(init);
      assert !HasKey(init, last.0) by {
        forall i | 0 <= i < |init| ensures init[i].0 != last.0 {
          assert ps[i].0 != ps[|ps| - 1].0;
        }
      }
      assert init + [last] == ps;
    }
  }
}
