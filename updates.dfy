/** Keyed updates applied in order, last write wins.

    Two loops of the service have this shape: `extract_metadata` assigns
    `metadata[key] = value` once per `key: value` line, and `process_ta`
    upserts one TrackTime document per accepted video, keyed by its proof
    URL. Each element of the input proposes at most one `(key, value)` pair
    (`None` when it is skipped), and the pairs are written into a map in
    input order. This module states what such a sequence of writes leaves
    behind, once, for both loops. */
module Updates {
  import opened Wrappers

  /** Write the proposed pair, if there is one. */
  function Apply<K(==), V>(m: map<K, V>, u: Option<(K, V)>): (r: map<K, V>)
    ensures u.None? ==> r == m
    ensures u.Some? ==> r.Keys == m.Keys + {u.value.0} && r[u.value.0] == u.value.1
    ensures u.Some? ==> forall k :: k in m && k != u.value.0 ==> r[k] == m[k]
  {
    match u
    case None => m
    case Some(kv) => m[kv.0 := kv.1]
  }

  /** The map after every element of `xs`, in order, has written its pair. */
  function ApplyAll<T, K(==), V>(m: map<K, V>, xs: seq<T>, f: T -> Option<(K, V)>): map<K, V>
    decreases |xs|
  {
    if xs == [] then m else Apply(ApplyAll(m, xs[..|xs| - 1], f), f(xs[|xs| - 1]))
  }

  /** Element `x` proposes a write to key `k`. */
  predicate Proposes<T, K(==), V>(f: T -> Option<(K, V)>, x: T, k: K) {
    f(x).Some? && f(x).value.0 == k
  }

  /** Element `i` is the last one of `xs` that writes key `k`. */
  predicate LastWriter<T, K(==), V>(f: T -> Option<(K, V)>, xs: seq<T>, i: int, k: K) {
    0 <= i < |xs| && Proposes(f, xs[i], k) &&
    forall j :: i < j < |xs| ==> !Proposes(f, xs[j], k)
  }

  lemma ApplyAllSnoc<T, K, V>(m: map<K, V>, xs: seq<T>, x: T, f: T -> Option<(K, V)>)
    ensures ApplyAll(m, xs + [x], f) == Apply(ApplyAll(m, xs, f), f(x))
  {
    assert (xs + [x])[..|xs + [x]| - 1] == xs;
  }

  /** Processing `xs + ys` is processing `xs`, then `ys` from where it left off. */
  lemma {:induction false} ApplyAllConcat<T, K, V>(m: map<K, V>, xs: seq<T>, ys: seq<T>, f: T -> Option<(K, V)>)
    ensures ApplyAll(m, xs + ys, f) == ApplyAll(ApplyAll(m, xs, f), ys, f)
    decreases |ys|
  {
    if ys == [] {
      assert xs + ys == xs;
    } else {
      var ys' := ys[..|ys| - 1];
      var y := ys[|ys| - 1];
      assert ys == ys' + [y];
      assert xs + ys == (xs + ys') + [y];
      ApplyAllSnoc(m, xs + ys', y, f);
      ApplyAllConcat(m, xs, ys', f);
      ApplyAllSnoc(ApplyAll(m, xs, f), ys', y, f);
    }
  }

  /** An element that proposes nothing can be dropped: it neither changes
      the map nor affects the elements after it. */
  lemma SkipIsInvisible<T, K, V>(m: map<K, V>, xs: seq<T>, x: T, ys: seq<T>, f: T -> Option<(K, V)>)
    requires f(x).None?
    ensures ApplyAll(m, xs + [x] + ys, f) == ApplyAll(m, xs + ys, f)
  {
    ApplyAllConcat(m, xs + [x], ys, f);
    ApplyAllSnoc(m, xs, x, f);
    ApplyAllConcat(m, xs, ys, f);
  }

  /** What the writes leave behind, key by key: a key is present iff it was
      present before or some element writes it; the value of a written key
      is the one its LAST writer proposed; a key no element writes keeps its
      old value. */
  lemma LastWriteWins<T, K, V>(m: map<K, V>, xs: seq<T>, f: T -> Option<(K, V)>, k: K)
    ensures k in ApplyAll(m, xs, f) <==> k in m || exists i :: 0 <= i < |xs| && Proposes(f, xs[i], k)
    ensures forall i :: LastWriter(f, xs, i, k) ==> ApplyAll(m, xs, f)[k] == f(xs[i]).value.1
    ensures (forall i :: 0 <= i < |xs| ==> !Proposes(f, xs[i], k)) && k in m ==>
              ApplyAll(m, xs, f)[k] == m[k]
  {
    WrittenKeys(m, xs, f, k);
    forall i | LastWriter(f, xs, i, k)
      ensures ApplyAll(m, xs, f)[k] == f(xs[i]).value.1
    {
      LastWriterValue(m, xs, f, k, i);
    }
    if (forall i :: 0 <= i < |xs| ==> !Proposes(f, xs[i], k)) && k in m {
      UnwrittenKey(m, xs, f, k);
    }
  }

  lemma {:induction false} WrittenKeys<T, K, V>(m: map<K, V>, xs: seq<T>, f: T -> Option<(K, V)>, k: K)
    ensures k in ApplyAll(m, xs, f) <==> k in m || exists i :: 0 <= i < |xs| && Proposes(f, xs[i], k)
    decreases |xs|
  {
    if xs != [] {
      var xs' := xs[..|xs| - 1];
      WrittenKeys(m, xs', f, k);
      if exists i :: 0 <= i < |xs'| && Proposes(f, xs'[i], k) {
        var i :| 0 <= i < |xs'| && Proposes(f, xs'[i], k);
        assert xs'[i] == xs[i];
      }
      if exists i :: 0 <= i < |xs| && Proposes(f, xs[i], k) {
        var i :| 0 <= i < |xs| && Proposes(f, xs[i], k);
        if i < |xs'| {
          assert xs'[i] == xs[i];
        }
      }
    }
  }

  lemma {:induction false} LastWriterValue<T, K, V>(m: map<K, V>, xs: seq<T>, f: T -> Option<(K, V)>, k: K, i: int)
    requires LastWriter(f, xs, i, k)
    ensures k in ApplyAll(m, xs, f) && ApplyAll(m, xs, f)[k] == f(xs[i]).value.1
    decreases |xs|
  {
    var xs' := xs[..|xs| - 1];
    if i < |xs| - 1 {
      assert xs'[i] == xs[i];
      assert LastWriter(f, xs', i, k) by {
        forall j | i < j < |xs'| ensures !Proposes(f, xs'[j], k) {
          assert xs'[j] == xs[j];
        }
      }
      LastWriterValue(m, xs', f, k, i);
      assert !Proposes(f, xs[|xs| - 1], k);
    }
  }

  lemma {:induction false} UnwrittenKey<T, K, V>(m: map<K, V>, xs: seq<T>, f: T -> Option<(K, V)>, k: K)
    requires forall i :: 0 <= i < |xs| ==> !Proposes(f, xs[i], k)
    requires k in m
    ensures k in ApplyAll(m, xs, f) && ApplyAll(m, xs, f)[k] == m[k]
    decreases |xs|
  {
    if xs != [] {
      var xs' := xs[..|xs| - 1];
      assert forall i :: 0 <= i < |xs'| ==> xs'[i] == xs[i];
      UnwrittenKey(m, xs', f, k);
      assert !Proposes(f, xs[|xs| - 1], k);
    }
  }

  /** A property every written pair has, and every pair of the starting map
      has, holds of every pair of the result. */
  lemma {:induction false} ApplyAllPreserves<T, K, V>(m: map<K, V>, xs: seq<T>, f: T -> Option<(K, V)>, p: (K, V) -> bool)
    requires forall k :: k in m ==> p(k, m[k])
    requires forall i :: 0 <= i < |xs| && f(xs[i]).Some? ==> p(f(xs[i]).value.0, f(xs[i]).value.1)
    ensures forall k :: k in ApplyAll(m, xs, f) ==> p(k, ApplyAll(m, xs, f)[k])
    decreases |xs|
  {
    if xs != [] {
      var xs' := xs[..|xs| - 1];
      assert forall i :: 0 <= i < |xs'| ==> xs'[i] == xs[i];
      ApplyAllPreserves(m, xs', f, p);
    }
  }
}
