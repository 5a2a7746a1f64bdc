/** `translate_nested_content`: a depth-first pass collects one masked text per
    leaf, the placeholders of each leaf under its key and a sequence of actions;
    after the batch translation a small stack machine replays the actions to
    rebuild the tree with the translated texts. */
module TreeTranslation {
  import opened Options
  import opened Text
  import opened OrderedDicts
  import opened Content
  import opened Placeholders
  import opened Batching
  import opened Sequences

  /** An entry of `sequence_map`: `('dict_start', key)`, `('text', key)` or
      `('dict_end', key)`. */
  datatype Action = DictStart(key: Key) | TextEntry(key: Key) | DictEnd(key: Key)

  // ---------------------------------------------------------------- collect

  function TextActions(c: seq<(Key, string)>): (r: seq<Action>)
    ensures |r| == |c|
  {
    seq(|c|, j requires 0 <= j < |c| => TextEntry(c[j].0))
  }

  /** The actions recorded for one top-level entry. */
  function EntryActions(e: (Key, Value)): seq<Action> {
    match e.1
    case Leaf(_) => [TextEntry(e.0)]
    case Node(c) => [DictStart(e.0)] + (TextActions(c) + [DictEnd(e.0)])
  }

  /** `sequence_map` after `collect_texts(content)`. */
  function Actions(t: Tree): seq<Action>
    decreases |t|
  {
    if t == [] then [] else Actions(t[..|t| - 1]) + EntryActions(t[|t| - 1])
  }

  function MaskedTexts(ls: seq<(Key, string)>): (r: seq<string>)
    ensures |r| == |ls|
  {
    seq(|ls|, i requires 0 <= i < |ls| => Masked(ls[i].1))
  }

  function TokenEntries(ls: seq<(Key, string)>): (r: seq<(Key, seq<string>)>)
    ensures |r| == |ls|
  {
    seq(|ls|, i requires 0 <= i < |ls| => (ls[i].0, Scan(ls[i].1).tokens))
  }

  /** `texts_to_translate`: the masked leaves in depth-first order. */
  function Texts(t: Tree): (r: seq<string>)
    ensures |r| == |Leaves(t)|
  {
    MaskedTexts(Leaves(t))
  }

  /** `translation_map`: each leaf's key assigned its placeholders, in order. */
  function TranslationMap(t: Tree): OrderedDict<Key, seq<string>> {
    FromPairs(TokenEntries(Leaves(t)))
  }

  lemma {:induction false} CollectPrefix(t: Tree, i: nat)
    requires i < |t|
    ensures Leaves(t[..i + 1]) == Leaves(t[..i]) + EntryLeaves(t[i])
    ensures Actions(t[..i + 1]) == Actions(t[..i]) + EntryActions(t[i])
  {
    assert t[..i + 1][..i] == t[..i];
  }

  lemma {:induction false} CollectLeaf(ls: seq<(Key, string)>, c: seq<(Key, string)>, j: nat)
    requires j < |c|
    ensures ls + c[..j + 1] == (ls + c[..j]) + [c[j]]
    ensures MaskedTexts(ls + c[..j + 1]) == MaskedTexts(ls + c[..j]) + [Masked(c[j].1)]
    ensures TokenEntries(ls + c[..j + 1]) == TokenEntries(ls + c[..j]) + [(c[j].0, Scan(c[j].1).tokens)]
    ensures TextActions(c[..j + 1]) == TextActions(c[..j]) + [TextEntry(c[j].0)]
  {
    assert c[..j + 1] == c[..j] + [c[j]];
  }

  /** One more child string collected after `ls` and the first `j` children. */
  lemma {:induction false} CollectChild(ls: seq<(Key, string)>, c: seq<(Key, string)>, j: nat,
                                        texts: seq<string>, tmap: OrderedDict<Key, seq<string>>, acts0: seq<Action>, acts: seq<Action>)
    requires j < |c|
    requires texts == MaskedTexts(ls + c[..j])
    requires tmap == FromPairs(TokenEntries(ls + c[..j]))
    requires acts == acts0 + TextActions(c[..j])
    ensures texts + [Masked(c[j].1)] == MaskedTexts(ls + c[..j + 1])
    ensures Put(tmap, c[j].0, Scan(c[j].1).tokens) == FromPairs(TokenEntries(ls + c[..j + 1]))
    ensures acts + [TextEntry(c[j].0)] == acts0 + TextActions(c[..j + 1])
  {
    CollectLeaf(ls, c, j);
    FromPairsSnoc(TokenEntries(ls + c[..j]), c[j].0, Scan(c[j].1).tokens);
    AppendAssoc(acts0, TextActions(c[..j]), [TextEntry(c[j].0)]);
  }

  lemma {:induction false} ObjectActions(key: Key, children: seq<(Key, string)>, before: seq<Action>, after: seq<Action>)
    requires after == before + [DictStart(key)] + TextActions(children)
    ensures after + [DictEnd(key)] == before + EntryActions((key, Node(children)))
  {
  }

  /** `total_items`: one for a string entry, one per child for an object. */
  function TotalItems(t: Tree): nat
    decreases |t|
  {
    if t == [] then 0 else TotalItems(t[..|t| - 1]) + ValueItems(t[|t| - 1].1)
  }

  function ValueItems(v: Value): nat {
    match v
    case Leaf(_) => 1
    case Node(c) => |c|
  }

  /** The count announced before collecting is the number of texts collected. */
  lemma {:induction false} TextsCount(t: Tree)
    ensures |Texts(t)| == TotalItems(t)
    decreases |t|
  {
    if t != [] {
      TextsCount(t[..|t| - 1]);
    }
  }

  /** The keys of the `('text', key)` actions, in order. */
  function TextKeys(acts: seq<Action>): seq<Key>
    decreases |acts|
  {
    if acts == [] then []
    else TextKeys(acts[..|acts| - 1]) + (if acts[|acts| - 1].TextEntry? then [acts[|acts| - 1].key] else [])
  }

  lemma {:induction false} TextKeysAppend(a: seq<Action>, b: seq<Action>)
    ensures TextKeys(a + b) == TextKeys(a) + TextKeys(b)
    decreases |b|
  {
    if b != [] {
      assert (a + b)[..|a + b| - 1] == a + b[..|b| - 1];
      TextKeysAppend(a, b[..|b| - 1]);
    } else {
      assert a + b == a;
    }
  }

  lemma {:induction false} TextActionsKeys(c: seq<(Key, string)>)
    ensures TextKeys(TextActions(c)) == Keys(c)
    decreases |c|
  {
    if c != [] {
      var init, acts := c[..|c| - 1], TextActions(c);
      assert acts[..|c| - 1] == TextActions(init);
      assert acts[|c| - 1] == TextEntry(c[|c| - 1].0);
      assert TextKeys(acts) == TextKeys(TextActions(init)) + [c[|c| - 1].0];
      TextActionsKeys(init);
      KeysOfLast(c);
    }
  }

  lemma {:induction false} KeysAppend<V>(a: seq<(Key, V)>, b: seq<(Key, V)>)
    ensures Keys(a + b) == Keys(a) + Keys(b)
  {
  }

  /** The `('text', key)` actions carry the leaf keys in the order the texts
      are collected, so the `i`-th of them is answered by the `i`-th text. */
  lemma {:induction false} ActionsTextKeys(t: Tree)
    ensures TextKeys(Actions(t)) == Keys(Leaves(t))
    decreases |t|
  {
    if t != [] {
      var init, e := t[..|t| - 1], t[|t| - 1];
      ActionsTextKeys(init);
      TextKeysAppend(Actions(init), EntryActions(e));
      KeysAppend(Leaves(init), EntryLeaves(e));
      match e.1
      case Leaf(_) =>
        assert TextKeys(EntryActions(e)) == TextKeys([] + [TextEntry(e.0)]) == [e.0];
      case Node(c) =>
        TextKeysAppend([DictStart(e.0)], TextActions(c) + [DictEnd(e.0)]);
        TextKeysAppend(TextActions(c), [DictEnd(e.0)]);
        assert TextKeys([DictStart(e.0)]) == TextKeys([] + [DictStart(e.0)]) == [];
        assert TextKeys([DictEnd(e.0)]) == TextKeys([] + [DictEnd(e.0)]) == [];
        TextActionsKeys(c);
    }
  }

  /** The map holds exactly the leaf keys, and a key shared by several leaves
      holds the placeholders of the last of them (translate.py:111). */
  lemma {:induction false} TranslationMapEntries(t: Tree, i: nat)
    requires i < |Leaves(t)|
    requires forall j :: i < j < |Leaves(t)| ==> Leaves(t)[j].0 != Leaves(t)[i].0
    ensures Get(TranslationMap(t), Leaves(t)[i].0) == Some(Scan(Leaves(t)[i].1).tokens)
  {
    FromPairsLastWins(TokenEntries(Leaves(t)), i);
  }

  lemma {:induction false} TranslationMapKeys(t: Tree)
    ensures forall i :: 0 <= i < |Leaves(t)| ==> Leaves(t)[i].0 in Keys(TranslationMap(t))
  {
    var es := TokenEntries(Leaves(t));
    FromPairsKeys(es);
    forall i | 0 <= i < |Leaves(t)| ensures Leaves(t)[i].0 in Keys(TranslationMap(t)) {
      assert Keys(es)[i] == Leaves(t)[i].0;
    }
  }

  // ---------------------------------------------------------------- rebuild

  /** The rebuild loop's variables: `translated`, `current_dict` as the key of the
      top-level object it is (`None` for `translated` itself), `dict_stack` and
      `text_index`. */
  datatype Machine = Machine(translated: Tree, current: Option<Key>, stack: seq<Option<Key>>, textIndex: nat)

  /** How a translated text gets its placeholders back; `Restore` in the program,
      left as a parameter in the lemmas about replaying a tree. */
  type Restorer = (string, seq<string>) -> string

  /** The leaf text `translated_text` after restoring the key's placeholders. */
  function LeafText(tmap: OrderedDict<Key, seq<string>>, rs: Restorer, k: Key, translated: string): string {
    match Get(tmap, k)
    case Some(ph) => rs(translated, ph)
    case None => translated
  }

  /** `current_dict[key] = text`; `None` where `current_dict` would not be an
      object. */
  function Stored(d: Tree, current: Option<Key>, k: Key, text: string): Option<Tree> {
    match current
    case None => Some(Put(d, k, Leaf(text)))
    case Some(c) =>
      match Get(d, c)
      case Some(v) => if v.Node? then Some(Put(d, c, Node(Put(v.children, k, text)))) else None
      case None => None
  }

  /** One turn of the rebuild loop (translate.py:129-141); `None` stands for the
      `IndexError` or `KeyError` it would raise. */
  function Step(m: Machine, a: Action, tr: seq<string>, tmap: OrderedDict<Key, seq<string>>, rs: Restorer): Option<Machine> {
    match a
    case DictStart(k) =>
      Some(Machine(Put(m.translated, k, Node([])), Some(k), m.stack + [m.current], m.textIndex))
    case DictEnd(_) =>
      if m.stack == [] then None
      else Some(m.(current := m.stack[|m.stack| - 1], stack := m.stack[..|m.stack| - 1]))
    case TextEntry(k) =>
      if m.textIndex >= |tr| then None
      else
        match Get(tmap, k)
        case None => None
        case Some(ph) =>
          match Stored(m.translated, m.current, k, rs(tr[m.textIndex], ph))
          case None => None
          case Some(d) => Some(m.(translated := d, textIndex := m.textIndex + 1))
  }

  function Run(m: Machine, acts: seq<Action>, tr: seq<string>, tmap: OrderedDict<Key, seq<string>>, rs: Restorer): Option<Machine>
    decreases |acts|
  {
    if acts == [] then Some(m)
    else
      match Step(m, acts[0], tr, tmap, rs)
      case None => None
      case Some(m') => Run(m', acts[1..], tr, tmap, rs)
  }

  /** Replaying from position `i` is one step, then replaying from `i + 1`. */
  lemma {:induction false} RunAt(m: Machine, acts: seq<Action>, i: nat, tr: seq<string>, tmap: OrderedDict<Key, seq<string>>, rs: Restorer)
    requires i < |acts|
    ensures Run(m, acts[i..], tr, tmap, rs)
         == match Step(m, acts[i], tr, tmap, rs) case None => None case Some(m') => Run(m', acts[i + 1..], tr, tmap, rs)
  {
    DropOne(acts, i);
  }

  const Initial := Machine([], None, [], 0)

  /** The dictionary the rebuild loop returns, or `None` if it raises. */
  function Rebuilt(acts: seq<Action>, tr: seq<string>, tmap: OrderedDict<Key, seq<string>>): Option<Tree> {
    match Run(Initial, acts, tr, tmap, Restore)
    case None => None
    case Some(m) => Some(m.translated)
  }

  // ---------------------------------------------------------------- pipeline

  /** What `translate_nested_content` returns, with the default batch size of 10;
      `None` where it raises. */
  function TranslateNested(content: Tree, translateBatch: BatchOracle, translate: ItemOracle): Option<Tree> {
    Rebuilt(Actions(content), Translated(Texts(content), 10, translateBatch, translate), TranslationMap(content))
  }
}
