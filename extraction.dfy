/** `extract_nested_content`: merges the matches of the object pattern and of the
    key-value pattern into one ordered dictionary. The two patterns themselves
    backtrack; their `finditer` results are the inputs here. */
module Extraction {
  import opened Text
  import opened OrderedDicts
  import opened Sequences
  import opened Content

  /** A match of `KEY_VALUE_PATTERN`: its start and its three groups (quote, key,
      value). */
  datatype PairMatch = PairMatch(start: nat, quote: string, name: string, value: string)

  /** A match of `NESTED_OBJECT_PATTERN`: its start, its three groups (quote, key,
      body) and the matches of `KEY_VALUE_PATTERN` inside the body. */
  datatype ObjectMatch = ObjectMatch(start: nat, quote: string, name: string, body: string, pairs: seq<PairMatch>)

  /** An entry of `items`: `(match.start(), (key, quote), value)`. */
  datatype Item = Item(start: nat, key: Key, value: Value)

  // ---------------------------------------------------------------- objects

  /** The assignments `nested_pairs[(nested_key.strip(), nested_quote)] =
      nested_value.strip()`, in match order. */
  function NestedEntries(ps: seq<PairMatch>): (r: seq<(Key, string)>)
    ensures |r| == |ps|
  {
    seq(|ps|, j requires 0 <= j < |ps| => NestedEntry(ps[j]))
  }

  function NestedEntry(p: PairMatch): (Key, string) {
    (Key(Strip(p.name), p.quote), Strip(p.value))
  }

  lemma NestedEntriesSnoc(ps: seq<PairMatch>, k: nat)
    requires k < |ps|
    ensures NestedEntries(ps[..k + 1]) == NestedEntries(ps[..k]) + [NestedEntry(ps[k])]
  {
    var a, b := NestedEntries(ps[..k + 1]), NestedEntries(ps[..k]) + [NestedEntry(ps[k])];
    forall j | 0 <= j <= k ensures a[j] == b[j] {
      if j < k {
        assert ps[..k + 1][j] == ps[..k][j];
      }
    }
  }

  /** The `nested_pairs` dictionary of one object match. */
  function NodePairs(m: ObjectMatch): OrderedDict<Key, string> {
    FromPairs(NestedEntries(m.pairs))
  }

  /** An object match is kept when its body is not blank and yields pairs. */
  predicate ObjectKept(m: ObjectMatch) {
    Strip(m.body) != [] && NodePairs(m) != []
  }

  function ObjectItem(m: ObjectMatch): Item {
    Item(m.start, Key(m.name, m.quote), Node(NodePairs(m)))
  }

  /** `items` after the first loop. */
  function ObjectItems(ms: seq<ObjectMatch>): seq<Item>
    decreases |ms|
  {
    if ms == [] then []
    else
      var m := ms[|ms| - 1];
      ObjectItems(ms[..|ms| - 1]) + (if ObjectKept(m) then [ObjectItem(m)] else [])
  }

  /** The first loop (translate.py:58-70). */
  method CollectObjects(ms: seq<ObjectMatch>) returns (items: seq<Item>)
    ensures items == ObjectItems(ms)
  {
    items := [];
    for i := 0 to |ms|
      invariant items == ObjectItems(ms[..i])
    {
      var m := ms[i];
      ghost var before := items;
      if Strip(m.body) != [] {
        var nestedPairs := CollectPairs(m.pairs);
        if nestedPairs != [] {
          items := items + [Item(m.start, Key(m.name, m.quote), Node(nestedPairs))];
        }
      }
      ObjectItemsSnoc(ms, i, before, items);
    }
    TakeAll(ms);
  }

  /** One turn of the first loop appends the item of its match, if it is kept. */
  lemma ObjectItemsSnoc(ms: seq<ObjectMatch>, i: nat, before: seq<Item>, after: seq<Item>)
    requires i < |ms| && before == ObjectItems(ms[..i])
    requires after == before + (if ObjectKept(ms[i]) then [ObjectItem(ms[i])] else [])
    ensures after == ObjectItems(ms[..i + 1])
  {
    PrefixOfPrefix(ms, i);
  }

  /** The inner loop of the first loop (translate.py:63-66): the pairs found in one
      object's body, assigned in match order. */
  method CollectPairs(pairs: seq<PairMatch>) returns (nestedPairs: OrderedDict<Key, string>)
    ensures nestedPairs == FromPairs(NestedEntries(pairs))
  {
    nestedPairs := [];
    for k := 0 to |pairs|
      invariant nestedPairs == FromPairs(NestedEntries(pairs[..k]))
    {
      var p := pairs[k];
      NestedEntriesSnoc(pairs, k);
      FromPairsSnoc(NestedEntries(pairs[..k]), Key(Strip(p.name), p.quote), Strip(p.value));
      nestedPairs := Put(nestedPairs, Key(Strip(p.name), p.quote), Strip(p.value));
    }
    TakeAll(pairs);
  }

  // ------------------------------------------------------------- flat pairs

  /** `any(key == item[1][0] for item in items)`. */
  predicate NameTaken(items: seq<Item>, name: string) {
    exists i :: 0 <= i < |items| && items[i].key.name == name
  }

  function FlatItem(p: PairMatch): Item {
    Item(p.start, Key(p.name, p.quote), Leaf(p.value))
  }

  /** `items` after the second loop, started from `base`. */
  function AddFlat(base: seq<Item>, ps: seq<PairMatch>): seq<Item>
    decreases |ps|
  {
    if ps == [] then base
    else
      var acc := AddFlat(base, ps[..|ps| - 1]);
      var p := ps[|ps| - 1];
      if NameTaken(acc, p.name) then acc else acc + [FlatItem(p)]
  }

  /** The second loop (translate.py:73-77). */
  method AddFlatMatches(base: seq<Item>, ps: seq<PairMatch>) returns (items: seq<Item>)
    ensures items == AddFlat(base, ps)
  {
    items := base;
    for i := 0 to |ps|
      invariant items == AddFlat(base, ps[..i])
    {
      var p := ps[i];
      assert ps[..i + 1][..i] == ps[..i];
      var taken := false;
      for j := 0 to |items|
        invariant taken <==> exists k :: 0 <= k < j && items[k].key.name == p.name
      {
        if items[j].key.name == p.name {
          taken := true;
        }
      }
      if !taken {
        items := items + [Item(p.start, Key(p.name, p.quote), Leaf(p.value))];
      }
    }
    assert ps[..|ps|] == ps;
  }

  // ---------------------------------------------------------------- sorting

  predicate SortedByStart(s: seq<Item>) {
    forall i, j :: 0 <= i < j < |s| ==> s[i].start <= s[j].start
  }

  /** Inserts `x` after every item that does not start after it. */
  function Insert(s: seq<Item>, x: Item): (r: seq<Item>)
    ensures |r| == |s| + 1
    decreases |s|
  {
    if s == [] || s[|s| - 1].start <= x.start then s + [x]
    else Insert(s[..|s| - 1], x) + [s[|s| - 1]]
  }

  /** Insertion only adds `x`. */
  lemma {:induction false} InsertElements(s: seq<Item>, x: Item)
    ensures multiset(Insert(s, x)) == multiset(s) + multiset{x}
    ensures forall y :: y in Insert(s, x) ==> y == x || y in s
    decreases |s|
  {
    if !(s == [] || s[|s| - 1].start <= x.start) {
      var init, last := s[..|s| - 1], s[|s| - 1];
      InitLast(s);
      InsertElements(init, x);
    }
  }

  /** Insertion into a sorted sequence keeps it sorted. */
  lemma {:induction false} InsertSorted(s: seq<Item>, x: Item)
    requires SortedByStart(s)
    ensures SortedByStart(Insert(s, x))
    decreases |s|
  {
    if s == [] || s[|s| - 1].start <= x.start {
      var r := s + [x];
      forall i, j | 0 <= i < j < |r| ensures r[i].start <= r[j].start {
        if j == |s| {
          assert r[i] == s[i];
          assert s[i].start <= s[|s| - 1].start;
        } else {
          assert r[i] == s[i] && r[j] == s[j];
        }
      }
    } else {
      var init, last := s[..|s| - 1], s[|s| - 1];
      InitLast(s);
      assert SortedByStart(init);
      InsertSorted(init, x);
      InsertElements(init, x);
      var r := Insert(init, x);
      assert Insert(s, x) == r + [last];
      forall k | 0 <= k < |r| ensures r[k].start <= last.start {
        assert r[k] in r;
        if r[k] != x {
          var j :| 0 <= j < |init| && init[j] == r[k];
          assert s[j] == init[j];
        }
      }
      var r' := r + [last];
      forall i, j | 0 <= i < j < |r'| ensures r'[i].start <= r'[j].start {
        if j == |r| {
          assert r'[i] == r[i];
        } else {
          assert r'[i] == r[i] && r'[j] == r[j];
        }
      }
    }
  }

  /** `sorted(items, key=lambda x: x[0])`: a stable sort by start, as insertion. */
  function SortByStart(items: seq<Item>): (r: seq<Item>)
    ensures |r| == |items|
    decreases |items|
  {
    if items == [] then []
    else Insert(SortByStart(items[..|items| - 1]), items[|items| - 1])
  }

  /** The sort orders by start and only permutes. */
  lemma {:induction false} SortByStartSorted(items: seq<Item>)
    ensures SortedByStart(SortByStart(items))
    ensures multiset(SortByStart(items)) == multiset(items)
    decreases |items|
  {
    if items != [] {
      var init := items[..|items| - 1];
      InitLast(items);
      SortByStartSorted(init);
      InsertSorted(SortByStart(init), items[|items| - 1]);
      InsertElements(SortByStart(init), items[|items| - 1]);
    }
  }

  /** The items that start at `v`, in order. */
  function WithStart(s: seq<Item>, v: nat): seq<Item>
    decreases |s|
  {
    if s == [] then []
    else WithStart(s[..|s| - 1], v) + (if s[|s| - 1].start == v then [s[|s| - 1]] else [])
  }

  lemma {:induction false} WithStartAppend(a: seq<Item>, b: seq<Item>, v: nat)
    ensures WithStart(a + b, v) == WithStart(a, v) + WithStart(b, v)
    decreases |b|
  {
    if b == [] {
      assert a + b == a;
    } else {
      assert (a + b)[..|a + b| - 1] == a + b[..|b| - 1];
      WithStartAppend(a, b[..|b| - 1], v);
    }
  }

  /** Insertion keeps the items of each start in their order, `x` after the
      others of its start. */
  lemma {:induction false} InsertStable(s: seq<Item>, x: Item, v: nat)
    ensures WithStart(Insert(s, x), v) == WithStart(s, v) + WithStart([x], v)
    decreases |s|
  {
    if s == [] || s[|s| - 1].start <= x.start {
      WithStartAppend(s, [x], v);
    } else {
      var init, last := s[..|s| - 1], s[|s| - 1];
      InsertStable(init, x, v);
      WithStartAppend(Insert(init, x), [last], v);
      assert WithStart([last], v) == WithStart([], v) + (if last.start == v then [last] else []);
      assert WithStart([x], v) == WithStart([], v) + (if x.start == v then [x] else []);
    }
  }

  /** The sort is stable: the items that share a start keep their order. */
  lemma {:induction false} SortByStartStable(items: seq<Item>, v: nat)
    ensures WithStart(SortByStart(items), v) == WithStart(items, v)
    decreases |items|
  {
    if items != [] {
      var init, last := items[..|items| - 1], items[|items| - 1];
      SortByStartStable(init, v);
      InsertStable(SortByStart(init), last, v);
      assert WithStart([last], v) == WithStart([], v) + (if last.start == v then [last] else []);
    }
  }

  // --------------------------------------------------------------- building

  /** The items the third loop assigns: all but those whose value is an empty
      object. */
  function KeptItems(s: seq<Item>): seq<Item>
    decreases |s|
  {
    if s == [] then []
    else
      var it := s[|s| - 1];
      KeptItems(s[..|s| - 1]) + (if it.value == Node([]) then [] else [it])
  }

  function ItemEntries(s: seq<Item>): (r: seq<(Key, Value)>)
    ensures |r| == |s|
  {
    seq(|s|, i requires 0 <= i < |s| => (s[i].key, s[i].value))
  }

  /** The assignments of the third loop, in order. */
  function KeptEntries(s: seq<Item>): seq<(Key, Value)> {
    ItemEntries(KeptItems(s))
  }

  lemma KeptEntriesStep(s: seq<Item>, i: nat)
    requires i < |s|
    ensures KeptEntries(s[..i + 1])
         == KeptEntries(s[..i]) + (if s[i].value == Node([]) then [] else [(s[i].key, s[i].value)])
  {
    assert s[..i + 1][..i] == s[..i];
    var k := KeptItems(s[..i]);
    if s[i].value != Node([]) {
      assert ItemEntries(k + [s[i]]) == ItemEntries(k) + [(s[i].key, s[i].value)];
    }
  }

  /** The third loop (translate.py:80-85). */
  method BuildResult(sorted: seq<Item>) returns (result: Tree)
    ensures result == FromPairs(KeptEntries(sorted))
  {
    result := [];
    for i := 0 to |sorted|
      invariant result == FromPairs(KeptEntries(sorted[..i]))
    {
      var it := sorted[i];
      KeptEntriesStep(sorted, i);
      if it.value.Node? && it.value.children != [] {
        assert it.value != Node([]);
        FromPairsSnoc(KeptEntries(sorted[..i]), it.key, it.value);
        result := Put(result, it.key, it.value);
      } else if !it.value.Node? {
        assert it.value != Node([]);
        FromPairsSnoc(KeptEntries(sorted[..i]), it.key, it.value);
        result := Put(result, it.key, it.value);
      } else {
        assert it.value == Node([]);
        assert KeptEntries(sorted[..i + 1]) == KeptEntries(sorted[..i]);
      }
    }
    assert sorted[..|sorted|] == sorted;
  }

  /** The items the third loop assigns, for the given matches. */
  function ExtractedItems(ms: seq<ObjectMatch>, ps: seq<PairMatch>): seq<Item> {
    KeptItems(SortByStart(AddFlat(ObjectItems(ms), ps)))
  }

  /** The dictionary `extract_nested_content` returns for the given matches. */
  function Extracted(ms: seq<ObjectMatch>, ps: seq<PairMatch>): Tree {
    FromPairs(ItemEntries(ExtractedItems(ms, ps)))
  }

  /** `extract_nested_content` (translate.py:52-87). */
  method ExtractNestedContent(ms: seq<ObjectMatch>, ps: seq<PairMatch>) returns (result: Tree)
    ensures result == Extracted(ms, ps)
  {
    var items := CollectObjects(ms);
    items := AddFlatMatches(items, ps);
    result := BuildResult(SortByStart(items));
  }

  // ---------------------------------------------------------------- origins

  /** Every object item comes from a kept object match. */
  lemma {:induction false} ObjectItemsFrom(ms: seq<ObjectMatch>)
    ensures forall it :: it in ObjectItems(ms) ==> exists m :: m in ms && ObjectKept(m) && it == ObjectItem(m)
    decreases |ms|
  {
    if ms != [] {
      var init := ms[..|ms| - 1];
      ObjectItemsFrom(init);
      InitLast(ms);
    }
  }

  /** The second loop adds only flat items of the given matches. */
  lemma {:induction false} AddFlatFrom(base: seq<Item>, ps: seq<PairMatch>)
    ensures forall it :: it in AddFlat(base, ps) ==> it in base || exists p :: p in ps && it == FlatItem(p)
    decreases |ps|
  {
    if ps != [] {
      var init := ps[..|ps| - 1];
      AddFlatFrom(base, init);
      InitLast(ps);
    }
  }

  /** The third loop's items are a sub-sequence of the sorted ones, so they stay
      sorted, and none is an empty object. */
  lemma {:induction false} KeptItemsFrom(s: seq<Item>)
    ensures forall it :: it in KeptItems(s) ==> it in s && it.value != Node([])
    ensures SortedByStart(s) ==> SortedByStart(KeptItems(s))
    decreases |s|
  {
    if s != [] {
      var init, last := s[..|s| - 1], s[|s| - 1];
      KeptItemsFrom(init);
      InitLast(s);
      if SortedByStart(s) && last.value != Node([]) {
        var k := KeptItems(init);
        assert SortedByStart(init);
        var k' := k + [last];
        forall i, j | 0 <= i < j < |k'| ensures k'[i].start <= k'[j].start {
          if j == |k| {
            assert k'[i] == k[i] && k[i] in init;
            var n :| 0 <= n < |init| && init[n] == k[i];
            assert s[n] == k[i];
          } else {
            assert k'[i] == k[i] && k'[j] == k[j];
          }
        }
      }
    }
  }

  /** Each item the third loop assigns is a kept object match's item or a flat
      match's item. */
  lemma ExtractedItemsFrom(ms: seq<ObjectMatch>, ps: seq<PairMatch>)
    ensures forall it :: it in ExtractedItems(ms, ps) ==>
      || (exists m :: m in ms && ObjectKept(m) && it == ObjectItem(m))
      || (exists p :: p in ps && it == FlatItem(p))
  {
    var items := AddFlat(ObjectItems(ms), ps);
    ObjectItemsFrom(ms);
    AddFlatFrom(ObjectItems(ms), ps);
    SortByStartSorted(items);
    KeptItemsFrom(SortByStart(items));
    forall it | it in ExtractedItems(ms, ps)
      ensures || (exists m :: m in ms && ObjectKept(m) && it == ObjectItem(m))
              || (exists p :: p in ps && it == FlatItem(p))
    {
      var sorted := SortByStart(items);
      assert it in sorted;
      assert it in multiset(sorted);
      assert it in items;
      if it in ObjectItems(ms) {
        var m :| m in ms && ObjectKept(m) && it == ObjectItem(m);
      } else {
        var p :| p in ps && it == FlatItem(p);
      }
    }
  }

  /** The result holds only kept objects, under their own key with their own pairs,
      and flat matches, under their own key with their own value: an object whose
      body is blank or yields no pairs never appears. */
  lemma ExtractedOrigin(ms: seq<ObjectMatch>, ps: seq<PairMatch>)
    ensures forall e :: e in Extracted(ms, ps) ==>
      || (exists m :: m in ms && ObjectKept(m) && e == (Key(m.name, m.quote), Node(NodePairs(m))))
      || (exists p :: p in ps && e == (Key(p.name, p.quote), Leaf(p.value)))
    ensures forall e :: e in Extracted(ms, ps) && e.1.Node? ==> e.1.children != []
  {
    var kept := ExtractedItems(ms, ps);
    ExtractedItemsFrom(ms, ps);
    FromPairsEntries(ItemEntries(kept));
    forall e | e in Extracted(ms, ps)
      ensures || (exists m :: m in ms && ObjectKept(m) && e == (Key(m.name, m.quote), Node(NodePairs(m))))
              || (exists p :: p in ps && e == (Key(p.name, p.quote), Leaf(p.value)))
    {
      var i :| 0 <= i < |kept| && ItemEntries(kept)[i] == e;
      assert kept[i] in kept;
    }
  }

  /** The result is a well-formed tree: its keys are distinct, and so are the
      keys inside each object. */
  lemma ExtractedWellFormed(ms: seq<ObjectMatch>, ps: seq<PairMatch>)
    ensures WellFormed(Extracted(ms, ps))
  {
    var t := Extracted(ms, ps);
    FromPairsKeys(ItemEntries(ExtractedItems(ms, ps)));
    ExtractedOrigin(ms, ps);
    forall i | 0 <= i < |t| && t[i].1.Node? ensures Distinct(Keys(t[i].1.children)) {
      assert t[i] in t;
      var m :| m in ms && ObjectKept(m) && t[i] == (Key(m.name, m.quote), Node(NodePairs(m)));
      FromPairsKeys(NestedEntries(m.pairs));
    }
  }

  // ------------------------------------------------------------------ names

  /** Some match among `ps` has key name `name`. */
  predicate PairNamed(ps: seq<PairMatch>, name: string) {
    exists j :: 0 <= j < |ps| && ps[j].name == name
  }

  /** After the second loop, a name is taken exactly when an object item or one
      of the flat matches carries it, whatever its quote. */
  lemma {:induction false} AddFlatNames(base: seq<Item>, ps: seq<PairMatch>, name: string)
    ensures NameTaken(AddFlat(base, ps), name) <==> NameTaken(base, name) || PairNamed(ps, name)
    decreases |ps|
  {
    if ps != [] {
      var init, p := ps[..|ps| - 1], ps[|ps| - 1];
      var acc := AddFlat(base, init);
      AddFlatNames(base, init, name);
      if PairNamed(init, name) {
        var j :| 0 <= j < |init| && init[j].name == name;
        assert ps[j].name == name;
      }
      if PairNamed(ps, name) && !PairNamed(init, name) {
        assert p.name == name;
      }
      if !NameTaken(acc, p.name) {
        var r := acc + [FlatItem(p)];
        if NameTaken(acc, name) {
          var k :| 0 <= k < |acc| && acc[k].key.name == name;
          assert r[k] == acc[k];
        }
        if p.name == name {
          assert r[|acc|].key.name == name;
        }
      }
    }
  }

  /** The flat matches that survive, stated directly: a match is added when no
      object item and no earlier flat match has its key name. */
  function FreshFlat(base: seq<Item>, ps: seq<PairMatch>): seq<Item>
    decreases |ps|
  {
    if ps == [] then []
    else
      var init, p := ps[..|ps| - 1], ps[|ps| - 1];
      FreshFlat(base, init) + (if NameTaken(base, p.name) || PairNamed(init, p.name) then [] else [FlatItem(p)])
  }

  /** The second loop appends exactly the surviving flat matches, in order. */
  lemma {:induction false} AddFlatFresh(base: seq<Item>, ps: seq<PairMatch>)
    ensures AddFlat(base, ps) == base + FreshFlat(base, ps)
    decreases |ps|
  {
    if ps != [] {
      var init, p := ps[..|ps| - 1], ps[|ps| - 1];
      AddFlatFresh(base, init);
      AddFlatNames(base, init, p.name);
    }
  }

  // ------------------------------------------------------------------ order

  /** The keys `r` stand in increasing order of the start of the first of `items`
      carrying each. */
  ghost predicate KeysByStart(items: seq<Item>, r: seq<Key>) {
    var ks := Keys(ItemEntries(items));
    forall a, b :: 0 <= a < b < |r| ==>
      r[a] in ks && r[b] in ks && items[FirstIndex(ks, r[a])].start <= items[FirstIndex(ks, r[b])].start
  }

  /** A fold over items sorted by start yields its keys by start. */
  lemma SortedKeysOrder(kept: seq<Item>)
    requires SortedByStart(kept)
    ensures KeysByStart(kept, Keys(FromPairs(ItemEntries(kept))))
  {
    FromPairsOrder(ItemEntries(kept));
  }

  /** The result's keys stand in increasing order of the start of their first
      assignment. */
  lemma ExtractedOrder(ms: seq<ObjectMatch>, ps: seq<PairMatch>)
    ensures KeysByStart(ExtractedItems(ms, ps), Keys(Extracted(ms, ps)))
  {
    var items := AddFlat(ObjectItems(ms), ps);
    SortByStartSorted(items);
    KeptItemsFrom(SortByStart(items));
    SortedKeysOrder(ExtractedItems(ms, ps));
  }
}
