/** The code of `translate_nested_content`: the collect pass, the rebuild loop
    and the function that runs them around the batch translation, each proved
    to compute its specification in `TreeTranslation`. */
module NestedTranslation {
  import opened Options
  import opened Text
  import opened OrderedDicts
  import opened Content
  import opened Placeholders
  import opened Batching
  import opened TreeTranslation
  import opened Sequences

  /** The recursive call `collect_texts(v)` on an object (translate.py:102-113
      with strings only): its strings are collected after those of `done`. */
  method CollectObject(children: seq<(Key, string)>, ghost done: seq<(Key, string)>,
                       texts0: seq<string>, translationMap0: OrderedDict<Key, seq<string>>, sequenceMap0: seq<Action>)
    returns (texts: seq<string>, translationMap: OrderedDict<Key, seq<string>>, sequenceMap: seq<Action>)
    requires texts0 == MaskedTexts(done)
    requires translationMap0 == FromPairs(TokenEntries(done))
    ensures texts == MaskedTexts(done + children)
    ensures translationMap == FromPairs(TokenEntries(done + children))
    ensures sequenceMap == sequenceMap0 + TextActions(children)
  {
    texts, translationMap, sequenceMap := texts0, translationMap0, sequenceMap0;
    assert done + children[..0] == done;
    for j := 0 to |children|
      invariant texts == MaskedTexts(done + children[..j])
      invariant translationMap == FromPairs(TokenEntries(done + children[..j]))
      invariant sequenceMap == sequenceMap0 + TextActions(children[..j])
    {
      var processed, placeholders := ProcessText(children[j].1);
      CollectChild(done, children, j, texts, translationMap, sequenceMap0, sequenceMap);
      texts := texts + [processed];
      translationMap := Put(translationMap, children[j].0, placeholders);
      sequenceMap := sequenceMap + [TextEntry(children[j].0)];
    }
    TakeAll(children);
  }

  /** `collect_texts(content)` (translate.py:100-116). */
  method CollectTexts(content: Tree)
    returns (texts: seq<string>, translationMap: OrderedDict<Key, seq<string>>, sequenceMap: seq<Action>)
    ensures texts == Texts(content)
    ensures translationMap == TranslationMap(content)
    ensures sequenceMap == Actions(content)
  {
    texts, translationMap, sequenceMap := [], [], [];
    for i := 0 to |content|
      invariant texts == MaskedTexts(Leaves(content[..i]))
      invariant translationMap == FromPairs(TokenEntries(Leaves(content[..i])))
      invariant sequenceMap == Actions(content[..i])
    {
      var key := content[i].0;
      ghost var done := Leaves(content[..i]);
      CollectPrefix(content, i);
      match content[i].1 {
        case Node(children) =>
          ghost var before := sequenceMap;
          texts, translationMap, sequenceMap := CollectObject(children, done, texts, translationMap, sequenceMap + [DictStart(key)]);
          ObjectActions(key, children, before, sequenceMap);
          sequenceMap := sequenceMap + [DictEnd(key)];
        case Leaf(v) =>
          ghost var before := sequenceMap;
          texts, translationMap, sequenceMap := CollectObject([(key, v)], done, texts, translationMap, sequenceMap);
          assert TextActions([(key, v)]) == [TextEntry(key)];
      }
    }
    assert content[..|content|] == content;
  }

  /** The rebuild loop (translate.py:124-143). */
  method Rebuild(sequenceMap: seq<Action>, translatedTexts: seq<string>, translationMap: OrderedDict<Key, seq<string>>)
    returns (result: Option<Tree>)
    ensures result == Rebuilt(sequenceMap, translatedTexts, translationMap)
  {
    var translated: Tree := [];
    var currentDict: Option<Key> := None;
    var dictStack: seq<Option<Key>> := [];
    var textIndex: nat := 0;
    for i := 0 to |sequenceMap|
      invariant Run(Initial, sequenceMap, translatedTexts, translationMap, Restore)
             == Run(Machine(translated, currentDict, dictStack, textIndex), sequenceMap[i..], translatedTexts, translationMap, Restore)
    {
      RunAt(Machine(translated, currentDict, dictStack, textIndex), sequenceMap, i, translatedTexts, translationMap, Restore);
      match sequenceMap[i] {
        case DictStart(key) =>
          translated := Put(translated, key, Node([]));
          dictStack := dictStack + [currentDict];
          currentDict := Some(key);
        case DictEnd(_) =>
          if dictStack == [] {
            return None;
          }
          currentDict := dictStack[|dictStack| - 1];
          dictStack := dictStack[..|dictStack| - 1];
        case TextEntry(key) =>
          if textIndex >= |translatedTexts| {
            return None;
          }
          var placeholders;
          match Get(translationMap, key) {
            case None =>
              return None;
            case Some(ph) =>
              placeholders := ph;
          }
          var translatedText := RestorePlaceholders(translatedTexts[textIndex], placeholders);
          match currentDict {
            case None =>
              translated := Put(translated, key, Leaf(translatedText));
            case Some(c) =>
              var entry := Get(translated, c);
              if entry.None? || !entry.value.Node? {
                return None;
              }
              translated := Put(translated, c, Node(Put(entry.value.children, key, translatedText)));
          }
          textIndex := textIndex + 1;
      }
    }
    return Some(translated);
  }

  /** `translate_nested_content` (translate.py:89-143). */
  method TranslateNestedContent(content: Tree, translateBatch: BatchOracle, translate: ItemOracle)
    returns (translated: Option<Tree>)
    ensures translated == TranslateNested(content, translateBatch, translate)
  {
    var texts, translationMap, sequenceMap := CollectTexts(content);
    var translatedTexts := BatchTranslate(texts, translateBatch, translate, 10);
    translated := Rebuild(sequenceMap, translatedTexts, translationMap);
  }
}
