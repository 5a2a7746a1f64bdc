# translate.py, modelled and verified in Dafny

`translate.py` translates the string values of a JavaScript-style object
literal (a locale file such as `export default { title: "Hello", menu: { open:
"Open" } }`) and writes them back in the same layout. The pipeline has five
stages:

1. **Parse.** `extract_nested_content` merges what two regular expressions find
   into an ordered dictionary. Its keys are `(name, quote)` pairs. Its values
   are strings, or one-level objects of strings.
2. **Shield.** `process_text` masks every `{…}` placeholder of a value as
   `PLACEHOLDER_i` so that the translator leaves it alone.
3. **Translate.** `batch_translate` sends the masked texts to a translator in
   batches of ten. When a batch call fails it falls back to one call per text,
   and when that call fails too it keeps the text as it was.
4. **Rebuild.** `translate_nested_content` walks the dictionary depth-first. It
   records a sequence of `dict_start` / `text` / `dict_end` actions, translates
   the texts, and then rebuilds the dictionary with a small stack machine that
   puts each text's placeholders back.
5. **Serialise.** `generate_js_content` prints the result as lines. The
   `export default {` / `{` framing is chosen from the original file.

The model follows the program's own form. The loops of the source are Dafny
methods with loop invariants:

- the placeholder scan and restore;
- the batching loop and its per-item fallback;
- the three loops of the parser;
- the collect walk and the rebuild loop;
- the line-building loops of the serialiser.

`translate_js_file`, which has no loop, is a method as well, without its I/O.

Each method is proved equal to a specification function. The properties the
program promises are then proved about those functions:

- **Round trip of the shield.** Restoring a masked text with an identity
  translation gives back the original, as long as the text holds no
  `PLACEHOLDER_` and at most ten placeholders.
- **The batching contract.** There is one output per input, and output `i` is
  the batch result, the single translation or the input itself.
- **Batch layout.** The batches are consecutive slices of the input, and there
  are `ceil(n / 10)` of them.
- **What the parser keeps.** Object blocks without pairs are dropped, and a
  flat pair whose name is already taken is skipped whatever its quote. Keys
  come out in source order.
- **What the rebuild produces.** The rebuilt dictionary has the input's shape
  whenever the translator answers each batch in full. When leaf keys are
  distinct, each leaf receives its own translation with its own placeholders
  restored.
- **The exact line structure of the output.** This includes its first and
  last lines, in both directions of the framing flags.

Modules, one per file:

- `Options` and `Sequences`: an `Option` type and small lemmas about slices.
- `Text`: ASCII whitespace, `strip`, `startswith` / `endswith` / `in`,
  `str.replace`, `'\n'.join` and its inverse.
- `OrderedDicts`: an `OrderedDict` as a sequence of pairs. Assigning a key that
  is already present keeps its position and overwrites its value.
- `Content`: keys, values, the parsed tree and its leaves, in depth-first
  order.
- `Placeholders`: the placeholder scanner, `process_text` and the restore
  loop.
- `Batching`: `batch_translate`, with the translator as two oracles.
- `Extraction`: `extract_nested_content`.
- `TreeTranslation` and `NestedTranslation`: the collect walk, the rebuild
  machine and the methods that run them.
- `TreeReplay`: what the rebuild machine computes.
- `JsOutput`: `generate_js_content`.
- `Pipeline`: the two framing flags and `translate_js_file`.

## Model

| member | source | states |
|---|---|---|
| Text.StripStartSpec | translate.py:61 | the left-stripped text is a suffix of the input, everything dropped is whitespace, and it does not start with whitespace |
| Text.StripEndSpec | translate.py:61 | the right-stripped text is a prefix of the input, everything dropped is whitespace, and it does not end with whitespace |
| Text.StripSlice | translate.py:192 | `strip()` is the slice between the leading and the trailing whitespace |
| Text.StripEmpty | translate.py:61 | `strip()` is empty exactly when every character is whitespace, which is the test of a blank object body |
| Text.ReplaceAbsent | translate.py:139 | `str.replace` leaves a string with no occurrence of the pattern unchanged |
| Text.ReplaceConcat | translate.py:139 | `str.replace` distributes over a concatenation when no occurrence straddles the seam |
| Text.NatToString | translate.py:47 | the index in `PLACEHOLDER_{i}` is written in decimal digits, one digit below ten |
| Text.NatToStringValue | translate.py:47 | the digits written for `i` have the decimal value `i` |
| Text.NatToStringInjective | translate.py:47 | distinct indexes are written differently, so distinct tokens get distinct markers |
| Text.SplitJoin | translate.py:167 | splitting `'\n'.join(lines)` on newlines gives back `lines` when no line holds a newline |
| Text.SplitFirstLine | translate.py:167 | splitting `'\n'.join(lines)` gives the first line back as the first piece when that line holds no newline, whatever the other lines hold |
| Text.SplitLastLine | translate.py:167 | likewise the last piece is the last line when that line holds no newline |
| Text.JoinSplitEnds | translate.py:167 | the first piece starts with the first line's first character and the last piece ends with the last line's last character, when neither is a newline |
| Text.JoinOfJoins | translate.py:155 | joining lines that are themselves joined groups equals joining the flattened groups |
| OrderedDicts.Get | translate.py:137 | a lookup succeeds exactly for the keys present |
| OrderedDicts.Put | translate.py:66 | assignment keeps an existing key in place or appends a new one, and the key then maps to the new value |
| OrderedDicts.PutOther | translate.py:66 | assignment leaves every other key's value unchanged |
| OrderedDicts.FromPairsKeys | translate.py:80-85 | a dictionary built by assignments has distinct keys, and exactly the keys assigned |
| OrderedDicts.FromPairsOrder | translate.py:80-85 | its keys stand in the order of their first assignment |
| OrderedDicts.FromPairsLastWins | translate.py:66 | a key maps to the value of its last assignment |
| OrderedDicts.FromDistinctPairs | translate.py:80-85 | assignments of distinct keys build exactly the sequence of pairs |
| Placeholders.MatchAt | translate.py:13 | a placeholder match at a position spans `{`, at least one non-`}` character and `}` |
| Placeholders.MatchAtUnique | translate.py:13 | any placeholder starting at a position is the one the scanner finds there |
| Placeholders.ProcessText | translate.py:40-50 | `process_text` returns the masked text and the recorded tokens of the scan |
| Placeholders.ScanFromRest | translate.py:40-50 | after its first segment and token, the scan goes on as a fresh scan from the end of that token |
| Placeholders.ScanAt | translate.py:40-50 | scanning from where segment `k` starts yields the segments and tokens from `k` on |
| Placeholders.ScanSegment | translate.py:40-50 | segment `k` holds no start of a match, token `k` is the match where segment `k` ends, and the last segment runs to the end of the text |
| Placeholders.ScanLeftmost | translate.py:40-50 | the scan is leftmost at every segment, not only the first |
| Placeholders.ProcessTextShape | translate.py:40-50 | the text is its segments woven with the tokens, and the masked text is the same segments woven with `PLACEHOLDER_0` … `PLACEHOLDER_{k-1}` in order; every token is a placeholder; no segment holds the start of a match, each token is the match where its segment ends, and the last segment runs to the end |
| Placeholders.NoTokenUnchanged | translate.py:40-50 | no token is recorded exactly when no placeholder occurs, and then the text comes back unchanged |
| Placeholders.RestorePlaceholders | translate.py:136-140 | the restore loop replaces `PLACEHOLDER_i` with token `i` for each `i` in order |
| Placeholders.RestoreWithoutMarkers | translate.py:138-139 | a translation holding no `PLACEHOLDER_` is left unchanged by the restore loop |
| Placeholders.ReplaceWeave | translate.py:139 | replacing a one-digit marker in a woven text replaces only the woven-in pieces equal to it |
| Placeholders.ShieldRoundTrip | translate.py:136-140 | restoring the masked text with its own tokens gives back the original, when it holds no `PLACEHOLDER_` and at most ten tokens |
| Batching.FallbackEach | translate.py:29-37 | the per-item fallback yields one text per text of the batch |
| Batching.TranslateEach | translate.py:29-37 | the fallback loop appends each text's translation, or the text itself where the call fails |
| Batching.BatchTranslate | translate.py:15-38 | the batching loop returns the specified translations for a positive batch size, and nothing for a negative one |
| Batching.TranslatedFrom | translate.py:21-25 | the translations from position `i` are the outcome of the batch `texts[i:i+size]` followed by the translations after it |
| Batching.BatchesCover | translate.py:21-22 | the batches concatenate to the input, and each holds between one and `size` texts |
| Batching.BatchAt | translate.py:21-22 | batch `j` is the slice `texts[j*size : j*size+size]` |
| Batching.BatchCount | translate.py:18 | there are `(len(texts) + size - 1) // size` batches |
| Batching.TranslatedLength | translate.py:15-38 | when every successful batch call answers with as many texts as it was sent, there is one translation per text |
| Batching.TranslatedAt | translate.py:15-38 | translation `j*size+k` is item `k` of batch `j`'s answer, else the single translation of the text, else the text itself |
| Batching.TranslatedIdentity | translate.py:23-25 | a batch call that returns its input leaves every text as it was |
| Content.ReplaceLeavesShape | translate.py:128-141 | putting new leaf texts into a tree keeps its keys, its nesting and its order |
| Content.ReplaceLeavesLeaves | translate.py:135-140 | after the replacement, leaf `i` has its old key and the `i`-th new text |
| Content.ReplaceLeavesSame | translate.py:128-141 | putting back a tree's own leaf texts gives the tree itself |
| Content.ShapeWellFormed | translate.py:128-141 | trees of the same shape have distinct keys together or not at all |
| Extraction.CollectPairs | translate.py:63-66 | an object's pairs are assigned, stripped, in match order |
| Extraction.CollectObjects | translate.py:58-70 | the first loop records exactly the object matches whose body is not blank and yields pairs |
| Extraction.AddFlatMatches | translate.py:73-77 | the second loop computes the specified items |
| Extraction.AddFlatNames | translate.py:76 | after the second loop a name is taken exactly when an object item or a flat match carries it, whatever its quote |
| Extraction.AddFlatFresh | translate.py:73-77 | the second loop appends exactly the flat matches whose name no object item and no earlier flat match carries, in order |
| Extraction.SortByStartSorted | translate.py:80 | the items are sorted by start and are a permutation of the unsorted items |
| Extraction.InsertStable | translate.py:80 | inserting an item keeps the items of each start in their order, the new one after the others of its start |
| Extraction.SortByStartStable | translate.py:80 | the sort is stable: the items that share a start come out in their input order |
| Extraction.BuildResult | translate.py:80-85 | the third loop assigns every item except an empty object, in sorted order |
| Extraction.ExtractNestedContent | translate.py:52-87 | `extract_nested_content` returns the dictionary specified by its three loops |
| Extraction.ExtractedOrigin | translate.py:58-85 | every entry is a kept object match or a flat match under its own key, and no object is empty |
| Extraction.ExtractedWellFormed | translate.py:54-87 | the result has distinct keys at the top and inside every object |
| Extraction.ExtractedOrder | translate.py:80-85 | the result's keys stand in increasing order of source position |
| TreeTranslation.TextsCount | translate.py:97-116 | the number of texts collected is `total_items`: one per string entry and one per child of an object |
| TreeTranslation.ActionsTextKeys | translate.py:100-114 | the `text` actions carry the leaf keys in the order the texts are collected, so the `i`-th `text` action is answered by the `i`-th text |
| TreeTranslation.TranslationMapEntries | translate.py:111 | a leaf's key maps to the placeholders of the last leaf written under that key |
| TreeTranslation.TranslationMapKeys | translate.py:111 | every leaf's key is in `translation_map` |
| NestedTranslation.CollectObject | translate.py:103-107 | collecting an object appends its children's texts, placeholders and `text` actions |
| NestedTranslation.CollectTexts | translate.py:100-116 | the collect walk produces the texts, the `translation_map` and the `sequence_map` of the tree |
| NestedTranslation.Rebuild | translate.py:124-143 | the rebuild loop returns what the stack machine computes, or nothing where it would raise |
| NestedTranslation.TranslateNestedContent | translate.py:89-143 | `translate_nested_content` returns the specified translated tree |
| TreeReplay.EntryRun | translate.py:128-141 | replaying one entry's actions stores it with the next translations restored |
| TreeReplay.TreeRun | translate.py:128-141 | replaying a tree's actions rebuilds the tree with its leaves replaced by the restored translations in order, and fails exactly when translations run out |
| TreeReplay.RebuiltTree | translate.py:124-143 | the rebuild succeeds exactly when there are at least as many translations as leaves, and then yields the tree with restored leaf texts |
| TreeReplay.RebuiltShape | translate.py:124-143 | the rebuilt tree has the input's shape, and leaf `i` is translation `i` restored with its key's placeholders |
| TreeReplay.OwnTokens | translate.py:109-112 | with distinct leaf keys, each leaf's key maps to its own tokens |
| TreeReplay.RebuiltOwnTokens | translate.py:135-141 | with distinct leaf keys, rebuilt leaf `i` is translation `i` with that leaf's own placeholders restored |
| TreeReplay.TranslateNestedShape | translate.py:89-143 | with a batch call that answers in full, translation never fails and keeps the input's keys, nesting and order |
| TreeReplay.IdentityRoundTrip | translate.py:89-143 | with a batch call that returns its input, distinct leaf keys, no `PLACEHOLDER_` and at most ten tokens per leaf, the tree comes back unchanged |
| JsOutput.Spaces | translate.py:153 | indentation is exactly `n` spaces |
| JsOutput.FormatString | translate.py:156 | a string value is printed between double quotes, unescaped |
| JsOutput.FormatValue | translate.py:149-156 | `format_value` returns the specified text of a value |
| JsOutput.GenerateJsContent | translate.py:145-167 | `generate_js_content` returns the specified text |
| JsOutput.EntryLineRows | translate.py:158-163 | each entry's line is, split at its newlines, `indent` spaces + quoted key + `: "value",` for a string; for an object it is `: {`, one row per child at `indent*2` spaces, then `indent` spaces + `},` |
| JsOutput.OutputRows | translate.py:145-167 | the output is the opening line, the rows of every entry and the closing line, joined with newlines |
| JsOutput.OutputLines | translate.py:145-167 | splitting the output at newlines gives exactly the opening line, the entry rows and the closing line, when no key, quote or value holds a newline |
| JsOutput.EntryRowsShape | translate.py:151-163 | for a positive indent, every row of an entry starts with a space and its last row ends with a comma |
| JsOutput.RowsStartSpace | translate.py:161-163 | for a positive indent, every entry row starts with a space |
| JsOutput.RowsEndComma | translate.py:161-163 | for a positive indent and non-empty content, the last entry row ends with a comma |
| JsOutput.FirstLastLines | translate.py:147-167 | for any content, newlines in keys or values included, the first line is `export default {` exactly when that flag is set; otherwise it is `{` exactly when the wrap flag is set; the last line is `}` exactly when either flag is set |
| JsOutput.FramedEnds | translate.py:147-166 | with either flag set, the first line is the opening line and the last line is `}` |
| JsOutput.UnframedSplitEnds | translate.py:158-163 | without framing, the first and last lines belong to entries, so neither is an opening line nor `}` |
| Pipeline.WrapWithBracesIff | translate.py:192 | the wrap flag holds exactly when the text is a `{` and a later `}` with only whitespace around them |
| Pipeline.BracesStrip | translate.py:192 | a `{` … `}` surrounded by whitespace sets the wrap flag |
| Pipeline.TranslateJsFile | translate.py:180-194 | `translate_js_file` writes the specified text, or nothing when no entry is found or the rebuild raises |
| Pipeline.WrittenWhenFound | translate.py:180-194 | with a batch call that answers in full, a file is written exactly when some entry was found |
| Pipeline.WrittenFraming | translate.py:192-194 | whatever the parsed keys and values hold, the written file opens with `export default {` exactly when the source contains `export default`, else with `{` exactly when the source is wrapped in braces, and closes with `}` exactly when either holds |
| Pipeline.IdentityFile | translate.py:180-194 | with a batch call that returns its input, the file written is the parsed content printed back, when leaf keys are distinct, no leaf holds `PLACEHOLDER_` and no leaf holds more than ten placeholders |

## Left out

- The translator (`GoogleTranslator`, translate.py:3, 24, 31, 175) is a
  network client. It is modelled by two oracle functions, one per batch and one
  per text, that either fail (`None`, standing for the exception) or answer.
  The model places no demand on what they answer.
- The oracles are functions, so the same batch or text always gets the same
  answer. A real translator can fail on one call and succeed on the next with
  the same input. The lemmas that hold for every oracle still hold for each
  run, but the model does not describe an answer that changes over time.
- The progress bar, `print` calls and timing (translate.py:20, 26, 28, 33-37,
  98, 117, 186, 199-202) only produce output and are not modelled.
- Reading and writing files, the path check, `mkdir` and the `__main__` block
  (translate.py:171-179, 195-197, 209-221) are not modelled.
  `Pipeline.TranslateJsFile` takes the file text and returns the text it
  would write.
- The top-level `try/except` (translate.py:177, 204-206) is modelled only as
  "nothing is written". The only exceptions the modelled code can raise are
  the rebuild's `IndexError` and `KeyError`.
- `KEY_VALUE_PATTERN` and `NESTED_OBJECT_PATTERN` (translate.py:11-12)
  backtrack. Their `finditer` results are inputs, given as start positions and
  groups. The model does not relate them to the file text.
- Character classes are ASCII. Whitespace for `strip()` means the characters
  9-13, 28-31 and 32. Python's Unicode whitespace is not modelled.
- `translated_dict` (translate.py:121) is never read, and it is not modelled.
- `total_items` only feeds `print`. It is modelled as
  `TreeTranslation.TotalItems`, which equals the number of texts collected.
  `collected_count` adds one per collected text, and it is not modelled
  apart from that number.
- `collect_texts` recurses, but the parser only produces one-level objects. The
  walk is therefore a loop over entries, with a helper method for an object's
  children. Deeper nesting is not modelled.
- The rebuild's `current_dict` is modelled as the key of the object being
  filled (`None` for the top-level dictionary), not as an aliased reference.
  This is exact for one-level trees. `dict_start` always assigns into the
  top-level dictionary, as translate.py:130 does.
- In `generate_js_content` the two branches of the loop (translate.py:160-163)
  write the same line, and they are modelled as one.
- Batching.BatchTranslate: it requires a non-zero batch size. With 0,
  `total_batches` (translate.py:18) already raises `ZeroDivisionError`. The
  program only calls it with 10.
- Placeholders.ShieldRoundTrip: it is proved only for at most ten placeholders
  and for text without `PLACEHOLDER_`. With eleven or more, replacing
  `PLACEHOLDER_1` also rewrites the prefix of `PLACEHOLDER_10`, so the program
  does not keep its promise there.
- TreeReplay.IdentityRoundTrip: it is proved only under the same conditions,
  and only for distinct leaf keys. Leaves that share a `(key, quote)` share the
  placeholder list written last (translate.py:111, 137).
- Pipeline.IdentityFile: it carries over the conditions of
  `TreeReplay.IdentityRoundTrip`: distinct leaf keys, no `PLACEHOLDER_` and at
  most ten placeholders per leaf. A key such as `title` used in two objects
  gives two leaves the same `(key, quote)`, and both then share the
  placeholder list written last (translate.py:111, 137).
- TreeReplay.RebuiltOwnTokens: the same distinct-keys condition applies.
  `TreeReplay.RebuiltShape` states the general case in terms of the shared
  map.
- JsOutput.OutputLines: it needs keys, quotes and values without newlines,
  because the output does no escaping. `JsOutput.OutputRows` states the
  general case as a join.
- JsOutput.FirstLastLines: it is stated only for a positive indent, which the
  program always uses (2). The proof relies on every entry line starting with a
  space.
- The TreeReplay lemmas: they take the restoring function as a parameter.
  `TreeReplay.RebuiltTree` instantiates it with the program's restore loop.
