/** A PHP array used as a dictionary: keys keep the order of their first insertion, and
    assigning to a key that is already present replaces its value where it stands. */
module OrderedMaps {
  import opened Wire

  type OrderedMap<K, V> = seq<(K, V)>

  /** `array_keys($m)`. */
  function Keys<K, V>(m: OrderedMap<K, V>): (ks: seq<K>)
    ensures |ks| == |m| && forall i :: 0 <= i < |m| ==> ks[i] == m[i].0
  {
    if m == [] then [] else [m[0].0] + Keys(m[1..])
  }

  /** No key occurs twice. */
  predicate DistinctKeys<K(==), V>(m: OrderedMap<K, V>)
  {
    forall i, j :: 0 <= i < j < |m| ==> m[i].0 != m[j].0
  }

  /** `$m[$k] ?? null`. */
  function Get<K(==), V>(m: OrderedMap<K, V>, k: K): (r: Option<V>)
    ensures r.None? <==> k !in Keys(m)
    ensures r.Some? ==> (k, r.value) in m
  {
    if m == [] then None
    else if m[0].0 == k then Some(m[0].1)
    else Get(m[1..], k)
  }

  /** `$m[$k] = $v`: overwrite in place when `k` is present, append otherwise. */
  function Put<K(==), V>(m: OrderedMap<K, V>, k: K, v: V): (r: OrderedMap<K, V>)
    ensures |m| <= |r| <= |m| + 1
  {
    if m == [] then [(k, v)]
    else if m[0].0 == k then [(k, v)] + m[1..]
    else [m[0]] + Put(m[1..], k, v)
  }

  /** `$m[$k] = $v` keeps the keys and their order, adding `k` at the end when it is new. */
  lemma {:induction false} PutKeys<K, V>(m: OrderedMap<K, V>, k: K, v: V)
    ensures Keys(Put(m, k, v)) == if k in Keys(m) then Keys(m) else Keys(m) + [k]
  {
    if m != [] && m[0].0 != k {
      PutKeys(m[1..], k, v);
      if k !in Keys(m[1..]) {
        AppendAssoc([m[0].0], Keys(m[1..]), [k]);
      }
    }
  }

  /** After `$m[$k] = $v`, `$m[$k]` is `v`. */
  lemma {:induction false} PutGet<K, V>(m: OrderedMap<K, V>, k: K, v: V)
    ensures Get(Put(m, k, v), k) == Some(v)
  {
    if m != [] && m[0].0 != k {
      PutGet(m[1..], k, v);
    }
  }

  /** `$m[$k] = $v` leaves every other key's value as it was. */
  lemma {:induction false} PutOther<K, V>(m: OrderedMap<K, V>, k: K, v: V, k': K)
    requires k' != k
    ensures Get(Put(m, k, v), k') == Get(m, k')
  {
    if m != [] && m[0].0 != k {
      PutOther(m[1..], k, v, k');
    }
  }

  /** `$m[$k] = $v` never creates a second entry for a key. */
  lemma PutDistinct<K, V>(m: OrderedMap<K, V>, k: K, v: V)
    requires DistinctKeys(m)
    ensures DistinctKeys(Put(m, k, v))
  {
    var r := Put(m, k, v);
    PutKeys(m, k, v);
    forall i, j | 0 <= i < j < |r| ensures r[i].0 != r[j].0 {
      assert Keys(r)[i] == r[i].0 && Keys(r)[j] == r[j].0;
      if j < |m| {
        assert Keys(m)[i] == m[i].0 && Keys(m)[j] == m[j].0;
      } else {
        assert Keys(m)[i] == m[i].0;
      }
    }
  }

  /** An array filled by `$m[$k] = $v` for each pair in order, starting empty. */
  function FromPairs<K(==), V>(pairs: seq<(K, V)>): OrderedMap<K, V>
    decreases |pairs|
  {
    if pairs == [] then []
    else
      var last := pairs[|pairs| - 1];
      Put(FromPairs(pairs[..|pairs| - 1]), last.0, last.1)
  }

  /** One more pair is one more assignment. */
  lemma FromPairsSnoc<K, V>(pairs: seq<(K, V)>, x: (K, V))
    ensures FromPairs(pairs + [x]) == Put(FromPairs(pairs), x.0, x.1)
  {
    assert (pairs + [x])[..|pairs|] == pairs;
  }

  /** The value of the last pair whose key is `k`, or None when no pair has that key. */
  function LastValue<K(==), V>(pairs: seq<(K, V)>, k: K): Option<V>
  {
    if pairs == [] then None
    else if pairs[|pairs| - 1].0 == k then Some(pairs[|pairs| - 1].1)
    else LastValue(pairs[..|pairs| - 1], k)
  }

  /** A key assigned several times keeps the value assigned last. */
  lemma {:induction false} FromPairsLastWins<K, V>(pairs: seq<(K, V)>, k: K)
    ensures Get(FromPairs(pairs), k) == LastValue(pairs, k)
  {
    if pairs != [] {
      var init := pairs[..|pairs| - 1];
      var last := pairs[|pairs| - 1];
      FromPairsLastWins(init, k);
      if last.0 == k {
        PutGet(FromPairs(init), k, last.1);
      } else {
        PutOther(FromPairs(init), last.0, last.1, k);
      }
    }
  }

  /** The array holds a key for every key assigned and for nothing else. */
  lemma {:induction false} FromPairsKeys<K, V>(pairs: seq<(K, V)>, k: K)
    ensures k in Keys(FromPairs(pairs)) <==> exists i :: 0 <= i < |pairs| && pairs[i].0 == k
  {
    if pairs != [] {
      var init := pairs[..|pairs| - 1];
      var last := pairs[|pairs| - 1];
      FromPairsKeys(init, k);
      PutKeys(FromPairs(init), last.0, last.1);
      if exists i :: 0 <= i < |init| && init[i].0 == k {
        var i :| 0 <= i < |init| && init[i].0 == k;
        assert pairs[i].0 == k;
      }
      if exists i :: 0 <= i < |pairs| && pairs[i].0 == k {
        var i :| 0 <= i < |pairs| && pairs[i].0 == k;
        if i < |init| {
          assert init[i].0 == k;
        }
      }
    }
  }

  /** No key appears twice, and there is at most one entry per assignment. */
  lemma {:induction false} FromPairsDistinct<K, V>(pairs: seq<(K, V)>)
    ensures DistinctKeys(FromPairs(pairs))
    ensures |FromPairs(pairs)| <= |pairs|
  {
    if pairs != [] {
      var init := pairs[..|pairs| - 1];
      var last := pairs[|pairs| - 1];
      FromPairsDistinct(init);
      PutDistinct(FromPairs(init), last.0, last.1);
      PutKeys(FromPairs(init), last.0, last.1);
    }
  }

  /** The keys of `ks` in the order they first occur, each once. */
  function FirstOccurrences<K(==)>(ks: seq<K>): seq<K>
  {
    if ks == [] then []
    else
      var n := |ks| - 1;
      var init := FirstOccurrences(ks[..n]);
      if ks[n] in ks[..n] then init else init + [ks[n]]
  }

  /** After a run of assignments the keys stand in the order each was first assigned. */
  lemma {:induction false} FromPairsKeyOrder<K, V>(pairs: seq<(K, V)>)
    ensures Keys(FromPairs(pairs)) == FirstOccurrences(Keys(pairs))
  {
    if pairs != [] {
      var n := |pairs| - 1;
      var init := pairs[..n];
      var last := pairs[n];
      var ks := Keys(pairs);
      FromPairsKeyOrder(init);
      assert ks[..n] == Keys(init);
      FromPairsKeys(init, last.0);
      if last.0 in Keys(init) {
        var i :| 0 <= i < |init| && Keys(init)[i] == last.0;
        assert init[i].0 == last.0;
      }
      PutKeys(FromPairs(init), last.0, last.1);
    }
  }

  /** A counted loop that reads `left` pairs with `item` from `off` on and assigns each
      into `acc` in turn; None as soon as a pair runs past the end. */
  function AssignFrom<K(==), V>(item: (seq<byte>, nat) -> Decoded<(K, V)>, s: seq<byte>, off: nat,
                                left: nat, acc: OrderedMap<K, V>): Option<OrderedMap<K, V>>
    decreases left
  {
    if left == 0 then Some(acc)
    else
      match item(s, off)
      case Truncated => None
      case Ok(x, next) => AssignFrom(item, s, next, left - 1, Put(acc, x.0, x.1))
  }

  /** One turn of the loop. */
  lemma AssignFromStep<K, V>(item: (seq<byte>, nat) -> Decoded<(K, V)>, s: seq<byte>, off: nat,
                             left: nat, acc: OrderedMap<K, V>, x: (K, V), next: nat)
    requires left > 0 && item(s, off) == Ok(x, next)
    ensures AssignFrom(item, s, off, left, acc) == AssignFrom(item, s, next, left - 1, Put(acc, x.0, x.1))
  {
  }

  /** Running the loop on top of the pairs `read` so far is reading all the remaining pairs
      first and then assigning every pair in order. */
  lemma {:induction false} AssignFromMany<K, V>(item: (seq<byte>, nat) -> Decoded<(K, V)>, s: seq<byte>,
                                                off: nat, left: nat, read: seq<(K, V)>)
    ensures Many(item, s, off, left).Truncated? ==> AssignFrom(item, s, off, left, FromPairs(read)) == None
    ensures Many(item, s, off, left).Ok?
        ==> AssignFrom(item, s, off, left, FromPairs(read)) == Some(FromPairs(read + Many(item, s, off, left).value))
    decreases left
  {
    if left == 0 {
      AppendNil(read);
    } else {
      match item(s, off)
      case Truncated =>
        ManyStops(item, s, off, left);
      case Ok(x, next) =>
        AssignFromStep(item, s, off, left, FromPairs(read), x, next);
        FromPairsSnoc(read, x);
        AssignFromMany(item, s, next, left - 1, read + [x]);
        ManyStep(item, s, off, left, x, next);
        var tail := Many(item, s, next, left - 1);
        if tail.Ok? {
          AppendAssoc(read, [x], tail.value);
        }
    }
  }
}
