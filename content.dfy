/** The parsed content of a translation file: an ordered dictionary from keys to
    values, where a key is a name with the quote that surrounded it in the
    source and a value is a string or a one-level object of strings. */
module Content {
  import opened OrderedDicts
  import opened Sequences

  /** `(key, quote)`: `quote` is `""` for a bare key, else one of `"`, `'`, `` ` ``. */
  datatype Key = Key(name: string, quote: string)

  datatype Value = Leaf(text: string) | Node(children: OrderedDict<Key, string>)

  type Tree = OrderedDict<Key, Value>

  /** Keys are distinct at the top and inside every object, as in a dict. */
  predicate WellFormed(t: Tree) {
    && Distinct(Keys(t))
    && forall i :: 0 <= i < |t| && t[i].1.Node? ==> Distinct(Keys(t[i].1.children))
  }

  /** The strings of one entry, keyed, in order. */
  function EntryLeaves(e: (Key, Value)): seq<(Key, string)> {
    match e.1
    case Leaf(s) => [(e.0, s)]
    case Node(c) => c
  }

  /** The leaves in depth-first order: the order `collect_texts` visits them. */
  function Leaves(t: Tree): seq<(Key, string)>
    decreases |t|
  {
    if t == [] then [] else Leaves(t[..|t| - 1]) + EntryLeaves(t[|t| - 1])
  }

  function LeafValues(t: Tree): (r: seq<string>)
    ensures |r| == |Leaves(t)|
  {
    var ls := Leaves(t);
    seq(|ls|, i requires 0 <= i < |ls| => ls[i].1)
  }

  /** One entry with its strings replaced, in order, by `vs`. */
  function ReplaceEntry(e: (Key, Value), vs: seq<string>): (Key, Value)
    requires |vs| == |EntryLeaves(e)|
  {
    match e.1
    case Leaf(_) => (e.0, Leaf(vs[0]))
    case Node(c) => (e.0, Node(seq(|c|, j requires 0 <= j < |c| => (c[j].0, vs[j]))))
  }

  /** The tree with its leaves replaced, in depth-first order, by `vs`. */
  function ReplaceLeaves(t: Tree, vs: seq<string>): (r: Tree)
    requires |vs| == |Leaves(t)|
    ensures |r| == |t|
    decreases |t|
  {
    if t == [] then []
    else
      var init := t[..|t| - 1];
      var n := |Leaves(init)|;
      ReplaceLeaves(init, vs[..n]) + [ReplaceEntry(t[|t| - 1], vs[n..])]
  }

  /** What the keys look like: each top-level key, and the child keys of an object. */
  datatype KeyShape = LeafKey(key: Key) | NodeKeys(key: Key, childKeys: seq<Key>)

  function Shape(t: Tree): (r: seq<KeyShape>)
    ensures |r| == |t|
  {
    seq(|t|, i requires 0 <= i < |t| =>
      match t[i].1
      case Leaf(_) => LeafKey(t[i].0)
      case Node(c) => NodeKeys(t[i].0, Keys(c)))
  }

  /** Replacing the leaves keeps every key where it was. */
  lemma {:induction false} ReplaceLeavesShape(t: Tree, vs: seq<string>)
    requires |vs| == |Leaves(t)|
    ensures Shape(ReplaceLeaves(t, vs)) == Shape(t)
    decreases |t|
  {
    if t != [] {
      var init := t[..|t| - 1];
      var n := |Leaves(init)|;
      var r := ReplaceLeaves(t, vs);
      ReplaceLeavesShape(init, vs[..n]);
      EntryShape(t[|t| - 1], vs[n..]);
      forall i | 0 <= i < |t| ensures Shape(r)[i] == Shape(t)[i] {
        if i < |init| {
          assert r[i] == ReplaceLeaves(init, vs[..n])[i];
          assert Shape(r)[i] == Shape(ReplaceLeaves(init, vs[..n]))[i];
          assert Shape(t)[i] == Shape(init)[i];
        }
      }
    }
  }

  /** The replaced tree's leaves are the new strings under the old keys. */
  lemma {:induction false} ReplaceLeavesLeaves(t: Tree, vs: seq<string>)
    requires |vs| == |Leaves(t)|
    ensures |Leaves(ReplaceLeaves(t, vs))| == |vs|
    ensures forall i :: 0 <= i < |vs| ==> Leaves(ReplaceLeaves(t, vs))[i] == (Leaves(t)[i].0, vs[i])
    decreases |t|
  {
    if t != [] {
      var init := t[..|t| - 1];
      var last := t[|t| - 1];
      var n := |Leaves(init)|;
      var r := ReplaceLeaves(t, vs);
      var e := ReplaceEntry(last, vs[n..]);
      ReplaceLeavesLeaves(init, vs[..n]);
      assert r[..|r| - 1] == ReplaceLeaves(init, vs[..n]) && r[|r| - 1] == e;
      assert Leaves(r) == Leaves(ReplaceLeaves(init, vs[..n])) + EntryLeaves(e);
      EntryShape(last, vs[n..]);
      forall i | 0 <= i < |vs| ensures Leaves(r)[i] == (Leaves(t)[i].0, vs[i]) {
        if i < n {
          assert vs[..n][i] == vs[i];
        } else {
          assert vs[n..][i - n] == vs[i];
        }
      }
    }
  }

  lemma {:induction false} EntryShape(e: (Key, Value), vs: seq<string>)
    requires |vs| == |EntryLeaves(e)|
    ensures ReplaceEntry(e, vs).0 == e.0
    ensures ReplaceEntry(e, vs).1.Leaf? == e.1.Leaf?
    ensures e.1.Node? ==> Keys(ReplaceEntry(e, vs).1.children) == Keys(e.1.children)
    ensures |EntryLeaves(ReplaceEntry(e, vs))| == |vs|
    ensures forall j :: 0 <= j < |vs| ==> EntryLeaves(ReplaceEntry(e, vs))[j] == (EntryLeaves(e)[j].0, vs[j])
  {
  }

  /** Putting back a tree's own strings gives the tree. */
  lemma {:induction false} ReplaceLeavesSame(t: Tree)
    ensures ReplaceLeaves(t, LeafValues(t)) == t
    decreases |t|
  {
    if t != [] {
      var init := t[..|t| - 1];
      var last := t[|t| - 1];
      var n := |Leaves(init)|;
      var vs := LeafValues(t);
      LeafValuesSplit(t);
      ReplaceLeavesSame(init);
      ReplaceEntrySame(last);
      assert ReplaceLeaves(t, vs) == ReplaceLeaves(init, vs[..n]) + [ReplaceEntry(last, vs[n..])];
      InitLast(t);
    }
  }

  function EntryValues(e: (Key, Value)): (r: seq<string>)
    ensures |r| == |EntryLeaves(e)|
  {
    seq(|EntryLeaves(e)|, j requires 0 <= j < |EntryLeaves(e)| => EntryLeaves(e)[j].1)
  }

  lemma {:induction false} LeafValuesSplit(t: Tree)
    requires t != []
    ensures |Leaves(t[..|t| - 1])| <= |LeafValues(t)|
    ensures LeafValues(t)[..|Leaves(t[..|t| - 1])|] == LeafValues(t[..|t| - 1])
    ensures LeafValues(t)[|Leaves(t[..|t| - 1])|..] == EntryValues(t[|t| - 1])
  {
    var init := t[..|t| - 1];
    var n := |Leaves(init)|;
    var vs := LeafValues(t);
    assert Leaves(t) == Leaves(init) + EntryLeaves(t[|t| - 1]);
    assert vs[..n] == LeafValues(init);
    assert vs[n..] == EntryValues(t[|t| - 1]);
  }

  lemma {:induction false} ReplaceEntrySame(e: (Key, Value))
    ensures ReplaceEntry(e, EntryValues(e)) == e
  {
    if e.1.Node? {
      assert ReplaceEntry(e, EntryValues(e)).1.children == e.1.children;
    }
  }

  /** Equal shapes have the same top-level keys. */
  lemma ShapeKeys(t: Tree, u: Tree)
    requires Shape(t) == Shape(u)
    ensures Keys(t) == Keys(u)
  {
    forall i | 0 <= i < |t| ensures Keys(t)[i] == Keys(u)[i] {
      assert Shape(t)[i].key == Shape(u)[i].key;
    }
  }

  /** Replacing the leaves keeps the top-level keys. */
  lemma ReplaceLeavesKeys(t: Tree, vs: seq<string>)
    requires |vs| == |Leaves(t)|
    ensures Keys(ReplaceLeaves(t, vs)) == Keys(t)
  {
    ReplaceLeavesShape(t, vs);
    ShapeKeys(ReplaceLeaves(t, vs), t);
  }

  /** Equal shapes mean equally well-formed trees. */
  lemma ShapeWellFormed(t: Tree, u: Tree)
    requires Shape(t) == Shape(u)
    ensures WellFormed(t) <==> WellFormed(u)
  {
    ShapeKeys(t, u);
    forall i | 0 <= i < |t| && t[i].1.Node?
      ensures u[i].1.Node? && Keys(t[i].1.children) == Keys(u[i].1.children)
    {
      assert Shape(t)[i] == Shape(u)[i];
    }
    forall i | 0 <= i < |u| && u[i].1.Node?
      ensures t[i].1.Node?
    {
      assert Shape(t)[i] == Shape(u)[i];
    }
  }

  /** A well-formed tree is a well-formed tree followed by a fresh key. */
  lemma WellFormedInit(t: Tree)
    requires WellFormed(t) && t != []
    ensures WellFormed(t[..|t| - 1])
    ensures t[|t| - 1].0 !in Keys(t[..|t| - 1])
    ensures t[|t| - 1].1.Node? ==> Distinct(Keys(t[|t| - 1].1.children))
  {
    var init := t[..|t| - 1];
    assert Keys(init) == Keys(t)[..|t| - 1];
  }
}
