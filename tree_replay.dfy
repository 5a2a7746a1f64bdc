/** What replaying the actions of a well-formed tree does: it rebuilds the tree
    with each leaf's translation restored, and fails exactly when translations
    run out. */
module TreeReplay {
  import opened Options
  import opened OrderedDicts
  import opened Content
  import opened Placeholders
  import opened TreeTranslation
  import opened Batching
  import opened Sequences

  // ------------------------------------------------------- rebuild, proved

  lemma {:induction false} RunAppend(m: Machine, a: seq<Action>, b: seq<Action>, tr: seq<string>, tmap: OrderedDict<Key, seq<string>>, rs: Restorer)
    ensures Run(m, a + b, tr, tmap, rs)
         == match Run(m, a, tr, tmap, rs) case None => None case Some(m') => Run(m', b, tr, tmap, rs)
    decreases |a|
  {
    if a == [] {
      assert a + b == b;
    } else {
      assert (a + b)[0] == a[0] && (a + b)[1..] == a[1..] + b;
      var next := Step(m, a[0], tr, tmap, rs);
      if next.Some? {
        RunAppend(next.value, a[1..], b, tr, tmap, rs);
      }
    }
  }

  /** The machine between two top-level entries. */
  function Top(d: Tree, n: nat): Machine {
    Machine(d, None, [], n)
  }

  /** The restored texts of the leaves `ls`, the first taking translation `n`. */
  function Vals(ls: seq<(Key, string)>, tr: seq<string>, tmap: OrderedDict<Key, seq<string>>, rs: Restorer, n: nat): (r: seq<string>)
    requires n + |ls| <= |tr|
    ensures |r| == |ls|
  {
    seq(|ls|, j requires 0 <= j < |ls| => LeafText(tmap, rs, ls[j].0, tr[n + j]))
  }

  /** An object's children after the first `j` of them were written. */
  function Partial(c: seq<(Key, string)>, tr: seq<string>, tmap: OrderedDict<Key, seq<string>>, rs: Restorer, n: nat, j: nat): (r: seq<(Key, string)>)
    requires j <= |c| && n + j <= |tr|
    ensures |r| == j
  {
    seq(j, x requires 0 <= x < j => (c[x].0, LeafText(tmap, rs, c[x].0, tr[n + x])))
  }

  /** Every key of `ls` has placeholders recorded in `tmap`. */
  predicate KeysKnown(ls: seq<(Key, string)>, tmap: OrderedDict<Key, seq<string>>)
    decreases |ls|
  {
    ls == [] || (ls[|ls| - 1].0 in Keys(tmap) && KeysKnown(ls[..|ls| - 1], tmap))
  }

  lemma {:induction false} KnownAt(ls: seq<(Key, string)>, tmap: OrderedDict<Key, seq<string>>, j: nat)
    requires KeysKnown(ls, tmap) && j < |ls|
    ensures ls[j].0 in Keys(tmap)
    decreases |ls|
  {
    if j < |ls| - 1 {
      assert ls[..|ls| - 1][j] == ls[j];
      KnownAt(ls[..|ls| - 1], tmap, j);
    }
  }

  lemma {:induction false} KnownAll(ls: seq<(Key, string)>, tmap: OrderedDict<Key, seq<string>>)
    requires forall j :: 0 <= j < |ls| ==> ls[j].0 in Keys(tmap)
    ensures KeysKnown(ls, tmap)
    decreases |ls|
  {
    if ls != [] {
      var init := ls[..|ls| - 1];
      assert forall j :: 0 <= j < |init| ==> init[j] == ls[j];
      KnownAll(init, tmap);
    }
  }

  /** A `text` action whose translation and placeholders are present and whose
      text can be stored. */
  lemma {:induction false} StepText(m: Machine, key: Key, tr: seq<string>, tmap: OrderedDict<Key, seq<string>>, rs: Restorer, ph: seq<string>, d: Tree)
    requires m.textIndex < |tr|
    requires Get(tmap, key) == Some(ph)
    requires Stored(m.translated, m.current, key, rs(tr[m.textIndex], ph)) == Some(d)
    ensures Step(m, TextEntry(key), tr, tmap, rs) == Some(Machine(d, m.current, m.stack, m.textIndex + 1))
  {
    var r := Step(m, TextEntry(key), tr, tmap, rs).value;
    assert r.translated == d;
    assert r.current == m.current && r.stack == m.stack && r.textIndex == m.textIndex + 1;
  }

  /** Writing a new key into the object appended last appends it there. */
  lemma {:induction false} StoredChild(d: Tree, k: Key, p: seq<(Key, string)>, key: Key, text: string)
    requires k !in Keys(d) && key !in Keys(p)
    ensures Stored(d + [(k, Node(p))], Some(k), key, text) == Some(d + [(k, Node(p + [(key, text)]))])
  {
    GetAppended(d, k, Node(p));
    AppendNew(p, key, text);
    PutAppended(d, k, Node(p), Node(p + [(key, text)]));
  }

  /** A text written into the object opened last, under a new key. */
  lemma {:induction false} ChildText(d: Tree, k: Key, p: seq<(Key, string)>, q: seq<(Key, string)>, key: Key, tr: seq<string>, tmap: OrderedDict<Key, seq<string>>, rs: Restorer, i: nat, ph: seq<string>)
    requires k !in Keys(d) && key !in Keys(p)
    requires i < |tr| && Get(tmap, key) == Some(ph)
    requires q == p + [(key, rs(tr[i], ph))]
    ensures Step(Machine(d + [(k, Node(p))], Some(k), [None], i), TextEntry(key), tr, tmap, rs)
         == Some(Machine(d + [(k, Node(q))], Some(k), [None], i + 1))
  {
    StoredChild(d, k, p, key, rs(tr[i], ph));
    StepText(Machine(d + [(k, Node(p))], Some(k), [None], i), key, tr, tmap, rs, ph, d + [(k, Node(q))]);
  }

  /** One text written into the object opened last. */
  lemma {:induction false} ChildStep(d: Tree, k: Key, c: seq<(Key, string)>, tr: seq<string>, tmap: OrderedDict<Key, seq<string>>, rs: Restorer, n: nat, j: nat)
    requires k !in Keys(d) && Distinct(Keys(c)) && KeysKnown(c, tmap)
    requires j < |c| && n + j < |tr|
    ensures Step(Machine(d + [(k, Node(Partial(c, tr, tmap, rs, n, j)))], Some(k), [None], n + j), TextEntry(c[j].0), tr, tmap, rs)
         == Some(Machine(d + [(k, Node(Partial(c, tr, tmap, rs, n, j + 1)))], Some(k), [None], n + (j + 1)))
  {
    KnownAt(c, tmap, j);
    var ph := Get(tmap, c[j].0).value;
    ChildFresh(c, tr, tmap, rs, n, j);
    PartialNext(c, tr, tmap, rs, n, j, ph);
    ChildText(d, k, Partial(c, tr, tmap, rs, n, j), Partial(c, tr, tmap, rs, n, j + 1), c[j].0, tr, tmap, rs, n + j, ph);
  }

  lemma {:induction false} ChildFresh(c: seq<(Key, string)>, tr: seq<string>, tmap: OrderedDict<Key, seq<string>>, rs: Restorer, n: nat, j: nat)
    requires Distinct(Keys(c)) && j < |c| && n + j <= |tr|
    ensures c[j].0 !in Keys(Partial(c, tr, tmap, rs, n, j))
  {
    PartialKeys(c, tr, tmap, rs, n, j);
    FreshAfter(c, Partial(c, tr, tmap, rs, n, j), j);
  }

  lemma {:induction false} PartialNext(c: seq<(Key, string)>, tr: seq<string>, tmap: OrderedDict<Key, seq<string>>, rs: Restorer, n: nat, j: nat, ph: seq<string>)
    requires j < |c| && n + j < |tr| && Get(tmap, c[j].0) == Some(ph)
    ensures Partial(c, tr, tmap, rs, n, j + 1) == Partial(c, tr, tmap, rs, n, j) + [(c[j].0, rs(tr[n + j], ph))]
  {
    PartialStep(c, tr, tmap, rs, n, j);
  }

  /** The children written so far carry the keys of the first children. */
  lemma {:induction false} PartialKeys(c: seq<(Key, string)>, tr: seq<string>, tmap: OrderedDict<Key, seq<string>>, rs: Restorer, n: nat, j: nat)
    requires j <= |c| && n + j <= |tr|
    ensures forall x :: 0 <= x < j ==> Partial(c, tr, tmap, rs, n, j)[x].0 == c[x].0
  {
  }

  /** A key of distinct keys is not among the keys of any sequence carrying the
      keys before it. */
  lemma {:induction false} FreshAfter(c: seq<(Key, string)>, p: seq<(Key, string)>, j: nat)
    requires Distinct(Keys(c)) && j < |c| && |p| == j
    requires forall x :: 0 <= x < j ==> p[x].0 == c[x].0
    ensures c[j].0 !in Keys(p)
  {
    assert Keys(p) == Keys(c)[..j];
    DistinctBefore(Keys(c), j);
  }

  lemma {:induction false} PartialStep(c: seq<(Key, string)>, tr: seq<string>, tmap: OrderedDict<Key, seq<string>>, rs: Restorer, n: nat, j: nat)
    requires j < |c| && n + j < |tr|
    ensures Partial(c, tr, tmap, rs, n, j + 1) == Partial(c, tr, tmap, rs, n, j) + [(c[j].0, LeafText(tmap, rs, c[j].0, tr[n + j]))]
  {
  }

  /** The texts of an object, written one by one into it. */
  lemma {:induction false} ChildrenRun(d: Tree, k: Key, c: seq<(Key, string)>, tr: seq<string>, tmap: OrderedDict<Key, seq<string>>, rs: Restorer, n: nat, j: nat)
    requires k !in Keys(d) && Distinct(Keys(c)) && KeysKnown(c, tmap)
    requires j <= |c| && n + j <= |tr|
    ensures Run(Machine(d + [(k, Node(Partial(c, tr, tmap, rs, n, j)))], Some(k), [None], n + j), TextActions(c)[j..], tr, tmap, rs)
         == if n + |c| <= |tr|
            then Some(Machine(d + [(k, Node(Partial(c, tr, tmap, rs, n, |c|)))], Some(k), [None], n + |c|))
            else None
    decreases |c| - j
  {
    if j == |c| {
      ChildrenDone(d, k, c, tr, tmap, rs, n, j);
    } else if n + j == |tr| {
      ChildrenShort(d, k, c, tr, tmap, rs, n, j);
    } else {
      ChildStep(d, k, c, tr, tmap, rs, n, j);
      ChildrenRun(d, k, c, tr, tmap, rs, n, j + 1);
      ChildrenNext(d, k, c, tr, tmap, rs, n, j,
        Run(Machine(d + [(k, Node(Partial(c, tr, tmap, rs, n, j + 1)))], Some(k), [None], n + (j + 1)), TextActions(c)[j + 1..], tr, tmap, rs));
    }
  }

  lemma {:induction false} ChildrenDone(d: Tree, k: Key, c: seq<(Key, string)>, tr: seq<string>, tmap: OrderedDict<Key, seq<string>>, rs: Restorer, n: nat, j: nat)
    requires j == |c| && n + j <= |tr|
    ensures Run(Machine(d + [(k, Node(Partial(c, tr, tmap, rs, n, j)))], Some(k), [None], n + j), TextActions(c)[j..], tr, tmap, rs)
         == Some(Machine(d + [(k, Node(Partial(c, tr, tmap, rs, n, |c|)))], Some(k), [None], n + |c|))
  {
    assert TextActions(c)[j..] == [];
  }

  lemma {:induction false} ChildrenShort(d: Tree, k: Key, c: seq<(Key, string)>, tr: seq<string>, tmap: OrderedDict<Key, seq<string>>, rs: Restorer, n: nat, j: nat)
    requires j < |c| && n + j == |tr|
    ensures Run(Machine(d + [(k, Node(Partial(c, tr, tmap, rs, n, j)))], Some(k), [None], n + j), TextActions(c)[j..], tr, tmap, rs) == None
  {
    var m := Machine(d + [(k, Node(Partial(c, tr, tmap, rs, n, j)))], Some(k), [None], n + j);
    DropOne(TextActions(c), j);
    RunHead(m, TextActions(c)[j..], tr, tmap, rs);
  }

  lemma {:induction false} ChildrenNext(d: Tree, k: Key, c: seq<(Key, string)>, tr: seq<string>, tmap: OrderedDict<Key, seq<string>>, rs: Restorer, n: nat, j: nat, r: Option<Machine>)
    requires j < |c| && n + j < |tr|
    requires Step(Machine(d + [(k, Node(Partial(c, tr, tmap, rs, n, j)))], Some(k), [None], n + j), TextEntry(c[j].0), tr, tmap, rs)
          == Some(Machine(d + [(k, Node(Partial(c, tr, tmap, rs, n, j + 1)))], Some(k), [None], n + (j + 1)))
    requires Run(Machine(d + [(k, Node(Partial(c, tr, tmap, rs, n, j + 1)))], Some(k), [None], n + (j + 1)), TextActions(c)[j + 1..], tr, tmap, rs) == r
    ensures Run(Machine(d + [(k, Node(Partial(c, tr, tmap, rs, n, j)))], Some(k), [None], n + j), TextActions(c)[j..], tr, tmap, rs) == r
  {
    DropOne(TextActions(c), j);
    RunHead(Machine(d + [(k, Node(Partial(c, tr, tmap, rs, n, j)))], Some(k), [None], n + j), TextActions(c)[j..], tr, tmap, rs);
  }

  /** A run is its first step followed by the run of the rest. */
  lemma {:induction false} RunHead(m: Machine, acts: seq<Action>, tr: seq<string>, tmap: OrderedDict<Key, seq<string>>, rs: Restorer)
    requires acts != []
    ensures Run(m, acts, tr, tmap, rs)
         == match Step(m, acts[0], tr, tmap, rs) case None => None case Some(m') => Run(m', acts[1..], tr, tmap, rs)
  {
  }

  lemma {:induction false} RunOne(m: Machine, a: Action, tr: seq<string>, tmap: OrderedDict<Key, seq<string>>, rs: Restorer)
    ensures Run(m, [a], tr, tmap, rs) == Step(m, a, tr, tmap, rs)
  {
    assert [a][1..] == [];
  }

  /** Replaying a top-level string. */
  lemma {:induction false} LeafRun(d: Tree, k: Key, tr: seq<string>, tmap: OrderedDict<Key, seq<string>>, rs: Restorer, n: nat)
    requires k !in Keys(d) && k in Keys(tmap) && n <= |tr|
    ensures Run(Top(d, n), [TextEntry(k)], tr, tmap, rs)
         == if n < |tr| then Some(Top(d + [(k, Leaf(LeafText(tmap, rs, k, tr[n])))], n + 1)) else None
  {
    RunOne(Top(d, n), TextEntry(k), tr, tmap, rs);
    if n < |tr| {
      var ph := Get(tmap, k).value;
      var text := rs(tr[n], ph);
      assert LeafText(tmap, rs, k, tr[n]) == text;
      StoredTop(d, k, text);
      StepText(Top(d, n), k, tr, tmap, rs, ph, d + [(k, Leaf(text))]);
    }
  }

  /** Writing a new key at the top level appends it. */
  lemma {:induction false} StoredTop(d: Tree, k: Key, text: string)
    requires k !in Keys(d)
    ensures Stored(d, None, k, text) == Some(d + [(k, Leaf(text))])
  {
    AppendNew(d, k, Leaf(text));
  }

  /** Replaying a top-level object: it is appended empty, filled and closed. */
  lemma {:induction false} NodeRun(d: Tree, k: Key, c: seq<(Key, string)>, tr: seq<string>, tmap: OrderedDict<Key, seq<string>>, rs: Restorer, n: nat)
    requires k !in Keys(d) && Distinct(Keys(c)) && KeysKnown(c, tmap) && n <= |tr|
    ensures Run(Top(d, n), [DictStart(k)] + (TextActions(c) + [DictEnd(k)]), tr, tmap, rs)
         == if n + |c| <= |tr| then Some(Top(d + [(k, Node(Partial(c, tr, tmap, rs, n, |c|)))], n + |c|)) else None
  {
    var r := Run(Machine(d + [(k, Node([]))], Some(k), [None], n), TextActions(c), tr, tmap, rs);
    ChildrenFrom(d, k, c, tr, tmap, rs, n);
    if n + |c| <= |tr| {
      OpenFillClose(d, k, TextActions(c), tr, tmap, rs, n, r, d + [(k, Node(Partial(c, tr, tmap, rs, n, |c|)))], n + |c|);
    } else {
      OpenFillClose(d, k, TextActions(c), tr, tmap, rs, n, r, d, n);
    }
  }

  /** An object opened at the top level, filled by `body` and closed. */
  lemma {:induction false} OpenFillClose(d: Tree, k: Key, body: seq<Action>, tr: seq<string>, tmap: OrderedDict<Key, seq<string>>, rs: Restorer, n: nat,
                                         r: Option<Machine>, full: Tree, i: nat)
    requires k !in Keys(d)
    requires Run(Machine(d + [(k, Node([]))], Some(k), [None], n), body, tr, tmap, rs) == r
    requires r.Some? ==> r == Some(Machine(full, Some(k), [None], i))
    ensures Run(Top(d, n), [DictStart(k)] + (body + [DictEnd(k)]), tr, tmap, rs) == if r.Some? then Some(Top(full, i)) else None
  {
    var m0 := Machine(d + [(k, Node([]))], Some(k), [None], n);
    OpenRun(d, k, body + [DictEnd(k)], tr, tmap, rs, n);
    if r.Some? {
      CloseAfter(m0, body, full, k, i, tr, tmap, rs);
    } else {
      RunSeqNone(m0, body, [DictEnd(k)], tr, tmap, rs);
    }
  }

  lemma {:induction false} OpenRun(d: Tree, k: Key, rest: seq<Action>, tr: seq<string>, tmap: OrderedDict<Key, seq<string>>, rs: Restorer, n: nat)
    requires k !in Keys(d)
    ensures Run(Top(d, n), [DictStart(k)] + rest, tr, tmap, rs) == Run(Machine(d + [(k, Node([]))], Some(k), [None], n), rest, tr, tmap, rs)
  {
    OpenObject(d, k, tr, tmap, rs, n);
    RunCons(Top(d, n), DictStart(k), rest, tr, tmap, rs);
  }

  /** Closing the object after a run that ends inside it. */
  lemma {:induction false} CloseAfter(m: Machine, acts: seq<Action>, full: Tree, k: Key, i: nat, tr: seq<string>, tmap: OrderedDict<Key, seq<string>>, rs: Restorer)
    requires Run(m, acts, tr, tmap, rs) == Some(Machine(full, Some(k), [None], i))
    ensures Run(m, acts + [DictEnd(k)], tr, tmap, rs) == Some(Top(full, i))
  {
    CloseRun(full, k, tr, tmap, rs, i);
    RunThen(m, acts, [DictEnd(k)], tr, tmap, rs, Machine(full, Some(k), [None], i), Top(full, i));
  }

  lemma {:induction false} CloseRun(d: Tree, k: Key, tr: seq<string>, tmap: OrderedDict<Key, seq<string>>, rs: Restorer, n: nat)
    ensures Run(Machine(d, Some(k), [None], n), [DictEnd(k)], tr, tmap, rs) == Some(Top(d, n))
  {
    RunOne(Machine(d, Some(k), [None], n), DictEnd(k), tr, tmap, rs);
    CloseObject(d, k, tr, tmap, rs, n);
  }

  lemma {:induction false} RunThen(m: Machine, a: seq<Action>, b: seq<Action>, tr: seq<string>, tmap: OrderedDict<Key, seq<string>>, rs: Restorer, m1: Machine, m2: Machine)
    requires Run(m, a, tr, tmap, rs) == Some(m1) && Run(m1, b, tr, tmap, rs) == Some(m2)
    ensures Run(m, a + b, tr, tmap, rs) == Some(m2)
  {
    RunAppend(m, a, b, tr, tmap, rs);
  }

  /** `dict_start` at the top level appends an empty object and enters it. */
  lemma {:induction false} OpenObject(d: Tree, k: Key, tr: seq<string>, tmap: OrderedDict<Key, seq<string>>, rs: Restorer, n: nat)
    requires k !in Keys(d)
    ensures Step(Top(d, n), DictStart(k), tr, tmap, rs) == Some(Machine(d + [(k, Node([]))], Some(k), [None], n))
  {
    AppendNew(d, k, Node([]));
    var empty: seq<Option<Key>> := [];
    assert empty + [None] == [None];
  }

  /** The texts of an object, written into it from the start. */
  lemma {:induction false} ChildrenFrom(d: Tree, k: Key, c: seq<(Key, string)>, tr: seq<string>, tmap: OrderedDict<Key, seq<string>>, rs: Restorer, n: nat)
    requires k !in Keys(d) && Distinct(Keys(c)) && KeysKnown(c, tmap) && n <= |tr|
    ensures Run(Machine(d + [(k, Node([]))], Some(k), [None], n), TextActions(c), tr, tmap, rs)
         == if n + |c| <= |tr|
            then Some(Machine(d + [(k, Node(Partial(c, tr, tmap, rs, n, |c|)))], Some(k), [None], n + |c|))
            else None
  {
    assert Partial(c, tr, tmap, rs, n, 0) == [];
    assert TextActions(c)[0..] == TextActions(c);
    ChildrenRun(d, k, c, tr, tmap, rs, n, 0);
  }

  lemma {:induction false} RunSeqNone(m: Machine, a: seq<Action>, b: seq<Action>, tr: seq<string>, tmap: OrderedDict<Key, seq<string>>, rs: Restorer)
    requires Run(m, a, tr, tmap, rs) == None
    ensures Run(m, a + b, tr, tmap, rs) == None
  {
    RunAppend(m, a, b, tr, tmap, rs);
  }

  lemma {:induction false} PartialAll(e: (Key, Value), tr: seq<string>, tmap: OrderedDict<Key, seq<string>>, rs: Restorer, n: nat)
    requires e.1.Node? && n + |e.1.children| <= |tr|
    ensures ReplaceEntry(e, Vals(EntryLeaves(e), tr, tmap, rs, n))
         == (e.0, Node(Partial(e.1.children, tr, tmap, rs, n, |e.1.children|)))
  {
    var c := e.1.children;
    var vs := Vals(c, tr, tmap, rs, n);
    assert EntryLeaves(e) == c;
    var r := ReplaceEntry(e, vs).1.children;
    assert |r| == |c|;
    forall x | 0 <= x < |c| ensures r[x] == Partial(c, tr, tmap, rs, n, |c|)[x] {
    }
    assert r == Partial(c, tr, tmap, rs, n, |c|);
  }

  /** `dict_end` right after the object was opened from the top level. */
  lemma {:induction false} CloseObject(d: Tree, k: Key, tr: seq<string>, tmap: OrderedDict<Key, seq<string>>, rs: Restorer, n: nat)
    ensures Step(Machine(d, Some(k), [None], n), DictEnd(k), tr, tmap, rs) == Some(Top(d, n))
  {
    var one: seq<Option<Key>> := [None];
    assert one[..0] == [];
  }

  lemma {:induction false} RunCons(m: Machine, a: Action, rest: seq<Action>, tr: seq<string>, tmap: OrderedDict<Key, seq<string>>, rs: Restorer)
    ensures Run(m, [a] + rest, tr, tmap, rs)
         == match Step(m, a, tr, tmap, rs) case None => None case Some(m') => Run(m', rest, tr, tmap, rs)
  {
    assert ([a] + rest)[0] == a && ([a] + rest)[1..] == rest;
  }

  /** Replaying one top-level entry appends it with its texts restored. */
  ghost predicate EntryReplayed(d: Tree, e: (Key, Value), tr: seq<string>, tmap: OrderedDict<Key, seq<string>>, rs: Restorer, n: nat) {
    Run(Top(d, n), EntryActions(e), tr, tmap, rs)
      == if n + |EntryLeaves(e)| <= |tr|
         then Some(Top(d + [ReplaceEntry(e, Vals(EntryLeaves(e), tr, tmap, rs, n))], n + |EntryLeaves(e)|))
         else None
  }

  lemma {:induction false} LeafEntryRun(d: Tree, e: (Key, Value), tr: seq<string>, tmap: OrderedDict<Key, seq<string>>, rs: Restorer, n: nat)
    requires e.1.Leaf? && e.0 !in Keys(d) && KeysKnown(EntryLeaves(e), tmap) && n <= |tr|
    ensures EntryReplayed(d, e, tr, tmap, rs, n)
  {
    assert EntryLeaves(e) == [(e.0, e.1.text)];
    assert EntryActions(e) == [TextEntry(e.0)];
    KnownAt(EntryLeaves(e), tmap, 0);
    LeafRun(d, e.0, tr, tmap, rs, n);
    if n < |tr| {
      assert ReplaceEntry(e, Vals(EntryLeaves(e), tr, tmap, rs, n)) == (e.0, Leaf(LeafText(tmap, rs, e.0, tr[n])));
    }
  }

  lemma {:induction false} NodeEntryRun(d: Tree, e: (Key, Value), tr: seq<string>, tmap: OrderedDict<Key, seq<string>>, rs: Restorer, n: nat)
    requires e.1.Node? && e.0 !in Keys(d) && Distinct(Keys(e.1.children)) && KeysKnown(EntryLeaves(e), tmap) && n <= |tr|
    ensures EntryReplayed(d, e, tr, tmap, rs, n)
  {
    var c := e.1.children;
    assert EntryLeaves(e) == c;
    assert EntryActions(e) == [DictStart(e.0)] + (TextActions(c) + [DictEnd(e.0)]);
    NodeRun(d, e.0, c, tr, tmap, rs, n);
    if n + |c| <= |tr| {
      PartialAll(e, tr, tmap, rs, n);
    }
  }

  lemma {:induction false} EntryRun(d: Tree, e: (Key, Value), tr: seq<string>, tmap: OrderedDict<Key, seq<string>>, rs: Restorer, n: nat)
    requires e.0 !in Keys(d)
    requires e.1.Node? ==> Distinct(Keys(e.1.children))
    requires KeysKnown(EntryLeaves(e), tmap)
    requires n <= |tr|
    ensures EntryReplayed(d, e, tr, tmap, rs, n)
  {
    if e.1.Leaf? {
      LeafEntryRun(d, e, tr, tmap, rs, n);
    } else {
      NodeEntryRun(d, e, tr, tmap, rs, n);
    }
  }

  /** The restored texts of two runs of leaves, one after the other. */
  lemma {:induction false} ValsSplit(ls: seq<(Key, string)>, ms: seq<(Key, string)>, tr: seq<string>, tmap: OrderedDict<Key, seq<string>>, rs: Restorer)
    requires |ls| + |ms| <= |tr|
    ensures Vals(ls + ms, tr, tmap, rs, 0)[..|ls|] == Vals(ls, tr, tmap, rs, 0)
    ensures Vals(ls + ms, tr, tmap, rs, 0)[|ls|..] == Vals(ms, tr, tmap, rs, |ls|)
  {
  }

  /** Replaying a well-formed tree's actions rebuilds it with each leaf's
      translation restored, and raises exactly when there are fewer translations
      than leaves. */
  lemma {:induction false} TreeRun(t: Tree, tr: seq<string>, tmap: OrderedDict<Key, seq<string>>, rs: Restorer)
    requires WellFormed(t)
    requires KeysKnown(Leaves(t), tmap)
    ensures Run(Initial, Actions(t), tr, tmap, rs)
         == if |Leaves(t)| <= |tr|
            then Some(Top(ReplaceLeaves(t, Vals(Leaves(t), tr, tmap, rs, 0)), |Leaves(t)|))
            else None
    decreases |t|
  {
    if t != [] {
      var init, e := t[..|t| - 1], t[|t| - 1];
      assert Leaves(t) == Leaves(init) + EntryLeaves(e);
      assert Actions(t) == Actions(init) + EntryActions(e);
      KnownSplit(Leaves(init), EntryLeaves(e), tmap);
      WellFormedInit(t);
      TreeRun(init, tr, tmap, rs);
      if |Leaves(init)| <= |tr| {
        var vs := Vals(Leaves(init), tr, tmap, rs, 0);
        ReplaceLeavesKeys(init, vs);
        var full := if |Leaves(t)| <= |tr| then ReplaceLeaves(t, Vals(Leaves(t), tr, tmap, rs, 0)) else [];
        if |Leaves(t)| <= |tr| {
          ReplaceLeavesVals(t, tr, tmap, rs);
        }
        TreeRunStep(Actions(init), Actions(t), |Leaves(init)|, |Leaves(t)|, ReplaceLeaves(init, vs), full, e, tr, tmap, rs);
      } else {
        RunSeqNone(Initial, Actions(init), EntryActions(e), tr, tmap, rs);
      }
    }
  }

  /** The step of `TreeRun` where the translations cover the leaves before the
      last entry, `n` of them, and `len` leaves in all. */
  lemma {:induction false} TreeRunStep(init: seq<Action>, acts: seq<Action>, n: nat, len: nat, d: Tree, full: Tree, e: (Key, Value),
                                       tr: seq<string>, tmap: OrderedDict<Key, seq<string>>, rs: Restorer)
    requires acts == init + EntryActions(e) && len == n + |EntryLeaves(e)|
    requires e.0 !in Keys(d)
    requires e.1.Node? ==> Distinct(Keys(e.1.children))
    requires KeysKnown(EntryLeaves(e), tmap)
    requires n <= |tr| && Run(Initial, init, tr, tmap, rs) == Some(Top(d, n))
    requires len <= |tr| ==> full == d + [ReplaceEntry(e, Vals(EntryLeaves(e), tr, tmap, rs, n))]
    ensures Run(Initial, acts, tr, tmap, rs) == if len <= |tr| then Some(Top(full, len)) else None
  {
    TreeRunLast(init, d, n, e, tr, tmap, rs);
  }

  /** The restored tree of a tree, as that of all entries but the last followed
      by the last. */
  lemma {:induction false} ReplaceLeavesVals(t: Tree, tr: seq<string>, tmap: OrderedDict<Key, seq<string>>, rs: Restorer)
    requires t != [] && |Leaves(t)| <= |tr|
    ensures |Leaves(t)| == |Leaves(t[..|t| - 1])| + |EntryLeaves(t[|t| - 1])|
    ensures ReplaceLeaves(t, Vals(Leaves(t), tr, tmap, rs, 0))
         == ReplaceLeaves(t[..|t| - 1], Vals(Leaves(t[..|t| - 1]), tr, tmap, rs, 0))
            + [ReplaceEntry(t[|t| - 1], Vals(EntryLeaves(t[|t| - 1]), tr, tmap, rs, |Leaves(t[..|t| - 1])|))]
  {
    var init, e := t[..|t| - 1], t[|t| - 1];
    assert Leaves(t) == Leaves(init) + EntryLeaves(e);
    ValsSplit(Leaves(init), EntryLeaves(e), tr, tmap, rs);
  }

  lemma {:induction false} KnownSplit(a: seq<(Key, string)>, b: seq<(Key, string)>, tmap: OrderedDict<Key, seq<string>>)
    requires KeysKnown(a + b, tmap)
    ensures KeysKnown(a, tmap) && KeysKnown(b, tmap)
  {
    forall j | 0 <= j < |a| ensures a[j].0 in Keys(tmap) {
      KnownAt(a + b, tmap, j);
      assert (a + b)[j] == a[j];
    }
    forall j | 0 <= j < |b| ensures b[j].0 in Keys(tmap) {
      KnownAt(a + b, tmap, |a| + j);
      assert (a + b)[|a| + j] == b[j];
    }
    KnownAll(a, tmap);
    KnownAll(b, tmap);
  }

  /** The replay of some actions followed by one more top-level entry's. */
  lemma {:induction false} TreeRunLast(acts: seq<Action>, d: Tree, n: nat, e: (Key, Value), tr: seq<string>, tmap: OrderedDict<Key, seq<string>>, rs: Restorer)
    requires e.0 !in Keys(d)
    requires e.1.Node? ==> Distinct(Keys(e.1.children))
    requires KeysKnown(EntryLeaves(e), tmap)
    requires Run(Initial, acts, tr, tmap, rs) == if n <= |tr| then Some(Top(d, n)) else None
    ensures Run(Initial, acts + EntryActions(e), tr, tmap, rs)
         == if n + |EntryLeaves(e)| <= |tr|
            then Some(Top(d + [ReplaceEntry(e, Vals(EntryLeaves(e), tr, tmap, rs, n))], n + |EntryLeaves(e)|))
            else None
  {
    if n <= |tr| {
      EntryAfter(acts, d, e, tr, tmap, rs, n);
    } else {
      RunSeqNone(Initial, acts, EntryActions(e), tr, tmap, rs);
    }
  }

  /** One more top-level entry after a run that ends between entries. */
  lemma {:induction false} EntryAfter(acts: seq<Action>, d: Tree, e: (Key, Value), tr: seq<string>, tmap: OrderedDict<Key, seq<string>>, rs: Restorer, n: nat)
    requires Run(Initial, acts, tr, tmap, rs) == Some(Top(d, n)) && n <= |tr|
    requires e.0 !in Keys(d)
    requires e.1.Node? ==> Distinct(Keys(e.1.children))
    requires KeysKnown(EntryLeaves(e), tmap)
    ensures Run(Initial, acts + EntryActions(e), tr, tmap, rs)
         == if n + |EntryLeaves(e)| <= |tr|
            then Some(Top(d + [ReplaceEntry(e, Vals(EntryLeaves(e), tr, tmap, rs, n))], n + |EntryLeaves(e)|))
            else None
  {
    RunAppend(Initial, acts, EntryActions(e), tr, tmap, rs);
    EntryRun(d, e, tr, tmap, rs, n);
  }

  /** The texts `translate_nested_content` writes: each leaf's translation with
      the placeholders recorded under the leaf's key restored. */
  function RestoredValues(t: Tree, tr: seq<string>): (r: seq<string>)
    requires |Leaves(t)| <= |tr|
    ensures |r| == |Leaves(t)|
  {
    Vals(Leaves(t), tr, TranslationMap(t), Restore, 0)
  }

  /** The rebuilt tree of a well-formed tree: present exactly when there are at
      least as many translations as leaves, and then the tree with its leaves
      replaced by the restored translations (translate.py:124-143). */
  lemma {:induction false} RebuiltTree(t: Tree, tr: seq<string>)
    requires WellFormed(t)
    ensures Rebuilt(Actions(t), tr, TranslationMap(t)).Some? <==> |Leaves(t)| <= |tr|
    ensures |Leaves(t)| <= |tr| ==> Rebuilt(Actions(t), tr, TranslationMap(t)) == Some(ReplaceLeaves(t, RestoredValues(t, tr)))
  {
    TranslationMapKeys(t);
    KnownAll(Leaves(t), TranslationMap(t));
    TreeRun(t, tr, TranslationMap(t), Restore);
  }

  /** The rebuilt tree keeps the keys and their order, at the top and inside each
      object, and the leaf at each depth-first position holds that position's
      translation with placeholders restored. */
  lemma {:induction false} RebuiltShape(t: Tree, tr: seq<string>)
    requires WellFormed(t) && |Leaves(t)| <= |tr|
    ensures Rebuilt(Actions(t), tr, TranslationMap(t)).Some?
    ensures Shape(Rebuilt(Actions(t), tr, TranslationMap(t)).value) == Shape(t)
    ensures var ls := Leaves(Rebuilt(Actions(t), tr, TranslationMap(t)).value);
            && |ls| == |Leaves(t)|
            && forall i :: 0 <= i < |ls| ==> ls[i] == (Leaves(t)[i].0, LeafText(TranslationMap(t), Restore, Leaves(t)[i].0, tr[i]))
  {
    RebuiltTree(t, tr);
    ReplaceLeavesShape(t, RestoredValues(t, tr));
    ReplaceLeavesLeaves(t, RestoredValues(t, tr));
  }

  /** With all leaf keys distinct, the map holds each leaf's own placeholders. */
  lemma {:induction false} OwnTokens(t: Tree, i: nat)
    requires Distinct(Keys(Leaves(t)))
    requires i < |Leaves(t)|
    ensures Get(TranslationMap(t), Leaves(t)[i].0) == Some(Scan(Leaves(t)[i].1).tokens)
  {
    forall j | i < j < |Leaves(t)| ensures Leaves(t)[j].0 != Leaves(t)[i].0 {
      DistinctPairs(Keys(Leaves(t)), i, j);
    }
    TranslationMapEntries(t, i);
  }

  /** With all leaf keys distinct, each rebuilt leaf is its translation with its
      own placeholders restored (translate.py:109-112, 135-141). */
  lemma {:induction false} RebuiltOwnTokens(t: Tree, tr: seq<string>, i: nat)
    requires WellFormed(t) && |Leaves(t)| <= |tr|
    requires Distinct(Keys(Leaves(t)))
    requires i < |Leaves(t)|
    ensures var r := Rebuilt(Actions(t), tr, TranslationMap(t));
            && r.Some? && i < |Leaves(r.value)|
            && Leaves(r.value)[i] == (Leaves(t)[i].0, Restore(tr[i], Scan(Leaves(t)[i].1).tokens))
  {
    RebuiltShape(t, tr);
    OwnTokens(t, i);
  }

  /** A translator whose batch call answers every batch with one text per text
      never makes the rebuild raise, and the keys keep their shape. */
  lemma {:induction false} TranslateNestedShape(content: Tree, translateBatch: BatchOracle, translate: ItemOracle)
    requires WellFormed(content)
    requires forall b :: translateBatch(b).Some? ==> |translateBatch(b).value| == |b|
    ensures TranslateNested(content, translateBatch, translate).Some?
    ensures Shape(TranslateNested(content, translateBatch, translate).value) == Shape(content)
  {
    TranslatedLength(Texts(content), 10, translateBatch, translate);
    RebuiltShape(content, Translated(Texts(content), 10, translateBatch, translate));
  }

  /** Translating with a batch call that returns its input gives the tree back,
      when leaf keys are distinct and each leaf holds no `PLACEHOLDER_` of its
      own and at most ten placeholders. */
  lemma {:induction false} IdentityRoundTrip(content: Tree, translateBatch: BatchOracle, translate: ItemOracle)
    requires WellFormed(content)
    requires Distinct(Keys(Leaves(content)))
    requires forall i :: 0 <= i < |Leaves(content)| ==> FreeOfMarkers(Leaves(content)[i].1)
    requires forall i :: 0 <= i < |Leaves(content)| ==> |Scan(Leaves(content)[i].1).tokens| <= 10
    requires forall b :: translateBatch(b) == Some(b)
    ensures TranslateNested(content, translateBatch, translate) == Some(content)
  {
    var tr := Texts(content);
    TranslatedIdentity(tr, 10, translateBatch, translate);
    RebuiltTree(content, tr);
    var ls := Leaves(content);
    forall i | 0 <= i < |ls| ensures RestoredValues(content, tr)[i] == LeafValues(content)[i] {
      OwnTokens(content, i);
      ShieldRoundTrip(ls[i].1);
    }
    assert RestoredValues(content, tr) == LeafValues(content);
    ReplaceLeavesSame(content);
  }
}
