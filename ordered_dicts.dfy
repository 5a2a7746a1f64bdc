/** Python's `OrderedDict` (and the insertion-ordered `dict`) as a sequence of
    entries: assigning to a key that is present overwrites its value where it
    stands, assigning to a new key appends it. */
module OrderedDicts {
  import opened Options
  import opened Sequences

  type OrderedDict<K, V> = seq<(K, V)>

  function Keys<K, V>(d: OrderedDict<K, V>): (r: seq<K>)
    ensures |r| == |d|
  {
    seq(|d|, i requires 0 <= i < |d| => d[i].0)
  }

  /** No element of `s` occurs twice: each differs from every one before it. */
  predicate Distinct<T(==)>(s: seq<T>)
    decreases |s|
  {
    s == [] || (s[|s| - 1] !in s[..|s| - 1] && Distinct(s[..|s| - 1]))
  }

  /** Two positions of a sequence without repeats hold different elements. */
  lemma {:induction false} DistinctPairs<T>(s: seq<T>, i: nat, j: nat)
    requires Distinct(s) && i < j < |s|
    ensures s[i] != s[j]
    decreases |s|
  {
    var init := s[..|s| - 1];
    assert s[i] == init[i];
    if j < |s| - 1 {
      assert s[j] == init[j];
      DistinctPairs(init, i, j);
    }
  }

  /** In a sequence without repeats no element occurs before its own position. */
  lemma {:induction false} DistinctBefore<T>(s: seq<T>, j: nat)
    requires Distinct(s) && j < |s|
    ensures s[j] !in s[..j]
  {
    forall i | 0 <= i < j ensures s[..j][i] != s[j] {
      DistinctPairs(s, i, j);
    }
  }

  lemma DistinctSnoc<T>(s: seq<T>, x: T)
    requires Distinct(s) && x !in s
    ensures Distinct(s + [x])
  {
    assert (s + [x])[..|s|] == s;
  }

  /** The index where `k` first occurs in `s`; `FirstIndexMin` says it is the first. */
  function FirstIndex<T(==)>(s: seq<T>, k: T): (i: nat)
    requires k in s
    ensures i < |s| && s[i] == k
  {
    IndexFromMin(s, k, 0);
    IndexFrom(s, k, 0)
  }

  /** The first index at or after `from` that holds `k`, or `|s|` if there is none. */
  function IndexFrom<T(==)>(s: seq<T>, k: T, from: nat): (i: nat)
    requires from <= |s|
    ensures from <= i <= |s|
    ensures i < |s| ==> s[i] == k
    decreases |s| - from
  {
    if from == |s| then |s|
    else if s[from] == k then from
    else IndexFrom(s, k, from + 1)
  }

  lemma {:induction false} IndexFromMin<T>(s: seq<T>, k: T, from: nat)
    requires from <= |s|
    ensures forall j :: from <= j < IndexFrom(s, k, from) ==> s[j] != k
    decreases |s| - from
  {
    if from < |s| && s[from] != k {
      IndexFromMin(s, k, from + 1);
    }
  }

  /** No index before `FirstIndex(s, k)` holds `k`. */
  lemma FirstIndexMin<T>(s: seq<T>, k: T)
    requires k in s
    ensures forall j :: 0 <= j < FirstIndex(s, k) ==> s[j] != k
  {
    IndexFromMin(s, k, 0);
  }

  /** `d[k]`, or `None` where Python raises `KeyError`. */
  function Get<K(==), V>(d: OrderedDict<K, V>, k: K): (r: Option<V>)
    ensures r.Some? <==> k in Keys(d)
  {
    if k in Keys(d) then Some(d[FirstIndex(Keys(d), k)].1) else None
  }

  /** `d[k] = v`: overwrites the value where the key stands, or appends the key. */
  function Put<K(==), V>(d: OrderedDict<K, V>, k: K, v: V): (r: OrderedDict<K, V>)
    ensures Keys(r) == if k in Keys(d) then Keys(d) else Keys(d) + [k]
    ensures Get(r, k) == Some(v)
  {
    if k in Keys(d) then
      var i := FirstIndex(Keys(d), k);
      assert Keys(d[i := (k, v)]) == Keys(d);
      d[i := (k, v)]
    else
      var r := d + [(k, v)];
      assert Keys(r) == Keys(d) + [k];
      assert FirstIndex(Keys(r), k) == |d|;
      r
  }

  /** Assigning one key leaves every other key's value as it was. */
  lemma {:induction false} PutOther<K, V>(d: OrderedDict<K, V>, k: K, v: V, other: K)
    requires other != k
    ensures Get(Put(d, k, v), other) == Get(d, other)
  {
    var r := Put(d, k, v);
    if other in Keys(d) {
      var j := FirstIndex(Keys(d), other);
      if k in Keys(d) {
        assert j != FirstIndex(Keys(d), k);
        assert r[j] == d[j];
      } else {
        FirstIndexPrefix(Keys(d), [k], other);
        assert r[j] == d[j];
      }
    }
  }

  /** Filling an empty `OrderedDict` by assigning the pairs in order. */
  function FromPairs<K(==, !new), V>(ps: seq<(K, V)>): OrderedDict<K, V>
    decreases |ps|
  {
    if ps == [] then []
    else Put(FromPairs(ps[..|ps| - 1]), ps[|ps| - 1].0, ps[|ps| - 1].1)
  }

  lemma {:induction false} KeysOfLast<K, V>(ps: seq<(K, V)>)
    requires ps != []
    ensures Keys(ps) == Keys(ps[..|ps| - 1]) + [ps[|ps| - 1].0]
  {
    var init := ps[..|ps| - 1];
    assert |Keys(ps)| == |Keys(init) + [ps[|ps| - 1].0]|;
    forall i | 0 <= i < |ps| ensures Keys(ps)[i] == (Keys(init) + [ps[|ps| - 1].0])[i] {
      if i < |init| {
        assert ps[i] == init[i];
      }
    }
  }

  /** One more assignment. */
  lemma FromPairsSnoc<K(!new), V>(ps: seq<(K, V)>, k: K, v: V)
    ensures FromPairs(ps + [(k, v)]) == Put(FromPairs(ps), k, v)
  {
    assert (ps + [(k, v)])[..|ps|] == ps;
  }

  /** A fold of assignments has exactly the keys assigned, each once. */
  lemma {:induction false} FromPairsKeys<K(!new), V>(ps: seq<(K, V)>)
    ensures Distinct(Keys(FromPairs(ps)))
    ensures forall k :: k in Keys(FromPairs(ps)) <==> k in Keys(ps)
    decreases |ps|
  {
    if ps != [] {
      var init := ps[..|ps| - 1];
      FromPairsKeys(init);
      KeysOfLast(ps);
      var k := ps[|ps| - 1].0;
      if k !in Keys(FromPairs(init)) {
        DistinctSnoc(Keys(FromPairs(init)), k);
      }
    }
  }

  /** Every element of `ks` occurs in `s`, and in `ks` they stand in the order of
      their first occurrence in `s`. */
  ghost predicate FirstOrdered<T>(ks: seq<T>, s: seq<T>) {
    && (forall a :: 0 <= a < |ks| ==> ks[a] in s)
    && (forall a, b :: 0 <= a < b < |ks| ==> FirstIndex(s, ks[a]) < FirstIndex(s, ks[b]))
  }

  lemma {:induction false} FirstOrderedExtend<T>(ks: seq<T>, s: seq<T>, x: T)
    requires FirstOrdered(ks, s)
    ensures FirstOrdered(ks, s + [x])
    ensures x !in s ==> FirstOrdered(ks + [x], s + [x])
  {
    forall a | 0 <= a < |ks| ensures ks[a] in s + [x] && FirstIndex(s + [x], ks[a]) == FirstIndex(s, ks[a]) {
      FirstIndexPrefix(s, [x], ks[a]);
    }
    if x !in s {
      var ks', s' := ks + [x], s + [x];
      assert s'[|s|] == x;
      assert FirstIndex(s', x) == |s|;
      forall a, b | 0 <= a < b < |ks'| ensures FirstIndex(s', ks'[a]) < FirstIndex(s', ks'[b]) {
        if b == |ks| {
          assert ks'[a] == ks[a];
        } else {
          assert ks'[a] == ks[a] && ks'[b] == ks[b];
        }
      }
    }
  }

  /** The keys come out in the order of their first assignment. */
  lemma {:induction false} FromPairsOrder<K(!new), V>(ps: seq<(K, V)>)
    ensures FirstOrdered(Keys(FromPairs(ps)), Keys(ps))
    decreases |ps|
  {
    if ps != [] {
      var init := ps[..|ps| - 1];
      var last := ps[|ps| - 1].0;
      FromPairsOrder(init);
      FromPairsKeys(init);
      KeysOfLast(ps);
      FirstOrderedExtend(Keys(FromPairs(init)), Keys(init), last);
    }
  }

  lemma {:induction false} FirstIndexPrefix<T>(s: seq<T>, t: seq<T>, k: T)
    requires k in s
    ensures k in s + t && FirstIndex(s + t, k) == FirstIndex(s, k)
  {
    var i := FirstIndex(s, k);
    assert (s + t)[i] == k;
    var j := FirstIndex(s + t, k);
    FirstIndexMin(s, k);
    FirstIndexMin(s + t, k);
    assert !(j < i) && !(i < j);
  }

  /** The value a key ends up with is the one of its last assignment. */
  lemma {:induction false} FromPairsLastWins<K(!new), V>(ps: seq<(K, V)>, i: nat)
    requires i < |ps|
    requires forall j :: i < j < |ps| ==> ps[j].0 != ps[i].0
    ensures Get(FromPairs(ps), ps[i].0) == Some(ps[i].1)
    decreases |ps|
  {
    if i < |ps| - 1 {
      var init := ps[..|ps| - 1];
      FromPairsLastWins(init, i);
      PutOther(FromPairs(init), ps[|ps| - 1].0, ps[|ps| - 1].1, ps[i].0);
    }
  }

  /** Assigning pairs whose keys are all different rebuilds them as they are. */
  lemma {:induction false} FromDistinctPairs<K(!new), V>(ps: seq<(K, V)>)
    requires Distinct(Keys(ps))
    ensures FromPairs(ps) == ps
    decreases |ps|
  {
    if ps != [] {
      var init := ps[..|ps| - 1];
      var last := ps[|ps| - 1];
      KeysOfLast(ps);
      DistinctInit(Keys(init), last.0);
      FromDistinctPairs(init);
      AppendNew(init, last.0, last.1);
      InitLast(ps);
    }
  }

  lemma DistinctInit<T>(s: seq<T>, x: T)
    requires Distinct(s + [x])
    ensures Distinct(s) && x !in s
  {
    assert (s + [x])[..|s|] == s;
  }

  /** Assigning a key that is not present appends it. */
  lemma {:induction false} AppendNew<K, V>(d: OrderedDict<K, V>, k: K, v: V)
    requires k !in Keys(d)
    ensures Put(d, k, v) == d + [(k, v)]
  {
  }

  /** An assignment adds only the assigned entry. */
  lemma {:induction false} PutEntries<K, V>(d: OrderedDict<K, V>, k: K, v: V)
    ensures forall e :: e in Put(d, k, v) ==> e in d || e == (k, v)
  {
    var r := Put(d, k, v);
    forall e | e in r ensures e in d || e == (k, v) {
      var n :| 0 <= n < |r| && r[n] == e;
      if k in Keys(d) {
        if n != FirstIndex(Keys(d), k) {
          assert r[n] == d[n];
        }
      } else if n < |d| {
        assert r[n] == d[n];
      }
    }
  }

  /** Every entry of a fold of assignments is one of the assigned pairs. */
  lemma {:induction false} FromPairsEntries<K(!new), V>(ps: seq<(K, V)>)
    ensures forall e :: e in FromPairs(ps) ==> e in ps
    decreases |ps|
  {
    if ps != [] {
      var init := ps[..|ps| - 1];
      FromPairsEntries(init);
      PutEntries(FromPairs(init), ps[|ps| - 1].0, ps[|ps| - 1].1);
      InitLast(ps);
    }
  }

  /** The entry appended last is found under its key, if the key was new. */
  lemma {:induction false} GetAppended<K, V>(d: OrderedDict<K, V>, k: K, v: V)
    requires k !in Keys(d)
    ensures Get(d + [(k, v)], k) == Some(v)
  {
    assert Put(d, k, v) == d + [(k, v)];
  }

  /** Reassigning the key appended last overwrites it where it stands. */
  lemma {:induction false} PutAppended<K, V>(d: OrderedDict<K, V>, k: K, v: V, w: V)
    requires k !in Keys(d)
    ensures Put(d + [(k, v)], k, w) == d + [(k, w)]
  {
    var e := d + [(k, v)];
    assert Put(d, k, v) == e;
    var i := FirstIndex(Keys(e), k);
    assert Keys(e)[i] == k;
    assert i == |d|;
    assert e[i := (k, w)] == d + [(k, w)];
  }
}
