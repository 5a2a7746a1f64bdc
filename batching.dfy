/** `batch_translate`: the texts go to the translator in consecutive slices of
    `batch_size`; a slice whose batch call fails is retried text by text, and a
    text whose own call fails is kept as it is. The translator is a pair of
    oracles: `None` stands for the exception a call raises. */
module Batching {
  import opened Options
  import opened Text
  import opened Sequences

  /** `translator.translate_batch`. */
  type BatchOracle = seq<string> -> Option<seq<string>>
  /** `translator.translate`. */
  type ItemOracle = string -> Option<string>

  function Min(a: nat, b: nat): nat {
    if a <= b then a else b
  }

  /** The slices `texts[i:i + size]` for `i` in `range(0, len(texts), size)`. */
  function Batches(texts: seq<string>, size: nat): seq<seq<string>>
    requires size > 0
    decreases |texts|
  {
    if texts == [] then []
    else
      var m := Min(size, |texts|);
      [texts[..m]] + Batches(texts[m..], size)
  }

  /** The text kept for one item of a failed batch. */
  function Fallback(translate: ItemOracle, text: string): string {
    match translate(text)
    case Some(t) => t
    case None => text
  }

  function FallbackEach(translate: ItemOracle, batch: seq<string>): (r: seq<string>)
    ensures |r| == |batch|
  {
    seq(|batch|, k requires 0 <= k < |batch| => Fallback(translate, batch[k]))
  }

  /** What one slice contributes to the result. */
  function BatchOutcome(translateBatch: BatchOracle, translate: ItemOracle, batch: seq<string>): seq<string> {
    match translateBatch(batch)
    case Some(out) => out
    case None => FallbackEach(translate, batch)
  }

  /** The list `batch_translate` returns. */
  function Translated(texts: seq<string>, size: nat, translateBatch: BatchOracle, translate: ItemOracle): seq<string>
    requires size > 0
    decreases |texts|
  {
    if texts == [] then []
    else
      var m := Min(size, |texts|);
      BatchOutcome(translateBatch, translate, texts[..m]) + Translated(texts[m..], size, translateBatch, translate)
  }

  /** The fallback of a failed batch (translate.py:29-37): each text on its own,
      kept as it is when its call fails too. */
  method TranslateEach(batch: seq<string>, translate: ItemOracle) returns (out: seq<string>)
    ensures out == FallbackEach(translate, batch)
  {
    out := [];
    for k := 0 to |batch|
      invariant out == FallbackEach(translate, batch[..k])
    {
      assert FallbackEach(translate, batch[..k + 1]) == FallbackEach(translate, batch[..k]) + [Fallback(translate, batch[k])];
      match translate(batch[k]) {
        case Some(translation) =>
          out := out + [translation];
        case None =>
          out := out + [batch[k]];
      }
    }
    assert batch[..|batch|] == batch;
  }

  /** `batch_translate` (translate.py:15-38). A zero batch size raises at the
      division on line 18; a negative one makes the range empty. */
  method BatchTranslate(texts: seq<string>, translateBatch: BatchOracle, translate: ItemOracle, batchSize: int)
    returns (translations: seq<string>)
    requires batchSize != 0
    ensures batchSize > 0 ==> translations == Translated(texts, batchSize, translateBatch, translate)
    ensures batchSize < 0 ==> translations == []
  {
    translations := [];
    if batchSize < 0 {
      return;
    }
    ghost var whole := Translated(texts, batchSize, translateBatch, translate);
    var i := 0;
    while i < |texts|
      invariant 0 <= i
      invariant i < |texts| ==> translations + Translated(texts[i..], batchSize, translateBatch, translate) == whole
      invariant i >= |texts| ==> translations == whole
      decreases |texts| - i
    {
      var end := Min(i + batchSize, |texts|);
      var batch := texts[i..end];
      ghost var done := translations;
      match translateBatch(batch) {
        case Some(translatedBatch) =>
          translations := translations + translatedBatch;
        case None =>
          var each := TranslateEach(batch, translate);
          translations := translations + each;
      }
      TranslatedStep(texts, batchSize, translateBatch, translate, i, done, translations);
      i := i + batchSize;
    }
  }

  /** One turn of the loop: the slice at `i` and then the rest. */
  lemma {:induction false} TranslatedFrom(texts: seq<string>, size: nat, translateBatch: BatchOracle, translate: ItemOracle, i: nat)
    requires size > 0 && i < |texts|
    ensures Translated(texts[i..], size, translateBatch, translate)
         == BatchOutcome(translateBatch, translate, texts[i..Min(i + size, |texts|)])
          + Translated(texts[Min(i + size, |texts|)..], size, translateBatch, translate)
  {
    var end := Min(i + size, |texts|);
    assert end - i == Min(size, |texts| - i);
    assert texts[i..][..end - i] == texts[i..end];
    assert texts[i..][end - i..] == texts[end..];
  }

  /** The loop invariant of `BatchTranslate` survives one turn. */
  lemma TranslatedStep(texts: seq<string>, size: nat, translateBatch: BatchOracle, translate: ItemOracle,
                       i: nat, done: seq<string>, translations: seq<string>)
    requires size > 0 && i < |texts|
    requires done + Translated(texts[i..], size, translateBatch, translate) == Translated(texts, size, translateBatch, translate)
    requires translations == done + BatchOutcome(translateBatch, translate, texts[i..Min(i + size, |texts|)])
    ensures i + size < |texts| ==>
      translations + Translated(texts[i + size..], size, translateBatch, translate) == Translated(texts, size, translateBatch, translate)
    ensures i + size >= |texts| ==> translations == Translated(texts, size, translateBatch, translate)
  {
    TranslatedFrom(texts, size, translateBatch, translate, i);
    var end := Min(i + size, |texts|);
    AppendAssoc(done, BatchOutcome(translateBatch, translate, texts[i..end]), Translated(texts[end..], size, translateBatch, translate));
    if end == |texts| {
      assert texts[end..] == [];
    } else {
      assert end == i + size;
    }
  }

  /** The slices are consecutive and in order: put together they are the input,
      no text skipped or repeated. */
  lemma {:induction false} BatchesCover(texts: seq<string>, size: nat)
    requires size > 0
    ensures Flatten(Batches(texts, size)) == texts
    ensures forall j :: 0 <= j < |Batches(texts, size)| ==> 0 < |Batches(texts, size)[j]| <= size
    decreases |texts|
  {
    if texts != [] {
      var m := Min(size, |texts|);
      BatchesCover(texts[m..], size);
      var bs := Batches(texts, size);
      assert bs[1..] == Batches(texts[m..], size);
      TakeDrop(texts, m);
    }
  }

  /** Where slice `j` starts, counted up slice by slice. */
  function Start(j: nat, size: nat): nat {
    if j == 0 then 0 else Start(j - 1, size) + size
  }

  lemma {:induction false} StartIsProduct(j: nat, size: nat)
    ensures Start(j, size) == j * size
  {
    if j > 0 {
      StartIsProduct(j - 1, size);
    }
  }

  lemma {:induction false} BatchAtStart(texts: seq<string>, size: nat, j: nat)
    requires size > 0 && j < |Batches(texts, size)|
    ensures Start(j, size) < |texts|
    ensures Batches(texts, size)[j] == texts[Start(j, size)..Min(Start(j, size) + size, |texts|)]
    decreases j
  {
    var m := Min(size, |texts|);
    if j > 0 {
      var rest := texts[m..];
      var p := Start(j - 1, size);
      BatchAtStart(rest, size, j - 1);
      assert Batches(texts, size)[j] == Batches(rest, size)[j - 1];
      assert m == size && Start(j, size) == p + size;
      var e := Min(p + size, |rest|);
      assert e + size == Min(p + size + size, |texts|);
      SliceOfDrop(texts, size, p, e);
    }
  }

  /** Slice `j` is `texts[j * size : j * size + size]`. */
  lemma BatchAt(texts: seq<string>, size: nat, j: nat)
    requires size > 0 && j < |Batches(texts, size)|
    ensures j * size < |texts|
    ensures Batches(texts, size)[j] == texts[j * size..Min(j * size + size, |texts|)]
  {
    BatchAtStart(texts, size, j);
    StartIsProduct(j, size);
  }

  /** There are `(len(texts) + batch_size - 1) // batch_size` slices, the
      `total_batches` of line 18. */
  lemma {:induction false} BatchCount(texts: seq<string>, size: nat)
    requires size > 0
    ensures |Batches(texts, size)| == (|texts| + size - 1) / size
    decreases |texts|
  {
    if texts != [] {
      var m := Min(size, |texts|);
      BatchCount(texts[m..], size);
      if |texts| <= size {
        DivOne(|texts| + size - 1, size);
      } else {
        DivShift(|texts| - size + size - 1, size);
      }
    }
  }

  lemma DivOne(a: nat, b: nat)
    requires 0 < b <= a < 2 * b
    ensures a / b == 1
  {
  }

  lemma DivShift(a: nat, b: nat)
    requires b > 0
    ensures (a + b) / b == a / b + 1
  {
    DivUnique(a + b, b, a / b + 1, a % b);
  }

  /** Division is determined by quotient and remainder. */
  lemma DivUnique(a: int, b: int, q: int, r: int)
    requires b > 0 && 0 <= r < b && a == q * b + r
    ensures a / b == q
  {
    var d := q - a / b;
    assert d * b == a % b - r;
  }

  /** When every successful batch call answers with one text per input text,
      the result has one text per input. */
  lemma {:induction false} TranslatedLength(texts: seq<string>, size: nat, translateBatch: BatchOracle, translate: ItemOracle)
    requires size > 0
    requires forall b :: translateBatch(b).Some? ==> |translateBatch(b).value| == |b|
    ensures |Translated(texts, size, translateBatch, translate)| == |texts|
    decreases |texts|
  {
    if texts != [] {
      var m := Min(size, |texts|);
      TranslatedLength(texts[m..], size, translateBatch, translate);
    }
  }

  lemma {:induction false} TranslatedAtStart(texts: seq<string>, size: nat, translateBatch: BatchOracle, translate: ItemOracle, j: nat, k: nat)
    requires size > 0
    requires forall b :: translateBatch(b).Some? ==> |translateBatch(b).value| == |b|
    requires j < |Batches(texts, size)| && k < |Batches(texts, size)[j]|
    ensures Start(j, size) + k < |texts| == |Translated(texts, size, translateBatch, translate)|
    ensures Translated(texts, size, translateBatch, translate)[Start(j, size) + k]
         == BatchOutcome(translateBatch, translate, Batches(texts, size)[j])[k]
    decreases j
  {
    var m := Min(size, |texts|);
    var first := BatchOutcome(translateBatch, translate, texts[..m]);
    var t, t' := Translated(texts, size, translateBatch, translate), Translated(texts[m..], size, translateBatch, translate);
    TranslatedLength(texts[m..], size, translateBatch, translate);
    OutcomeLength(translateBatch, translate, texts[..m]);
    assert t == first + t';
    if j == 0 {
      assert Batches(texts, size)[0] == texts[..m];
      assert Start(j, size) + k == k;
      assert t[k] == first[k];
    } else {
      var rest := texts[m..];
      var p := Start(j - 1, size);
      assert Batches(texts, size)[j] == Batches(rest, size)[j - 1];
      TranslatedAtStart(rest, size, translateBatch, translate, j - 1, k);
      assert m == size && Start(j, size) + k == m + (p + k);
      assert t[m + (p + k)] == t'[p + k];
    }
  }

  lemma OutcomeLength(translateBatch: BatchOracle, translate: ItemOracle, batch: seq<string>)
    requires forall b :: translateBatch(b).Some? ==> |translateBatch(b).value| == |b|
    ensures |BatchOutcome(translateBatch, translate, batch)| == |batch|
  {
  }

  /** Under the same condition, the text at position `k` of slice `j` comes from
      that slice's batch answer, or, when the batch call failed, from the
      individual translation of the same input text, or is that text itself. */
  lemma TranslatedAt(texts: seq<string>, size: nat, translateBatch: BatchOracle, translate: ItemOracle, j: nat, k: nat)
    requires size > 0
    requires forall b :: translateBatch(b).Some? ==> |translateBatch(b).value| == |b|
    requires j < |Batches(texts, size)| && k < |Batches(texts, size)[j]|
    ensures j * size + k < |texts| == |Translated(texts, size, translateBatch, translate)|
    ensures var batch := Batches(texts, size)[j];
      Translated(texts, size, translateBatch, translate)[j * size + k]
      == match translateBatch(batch)
         case Some(out) => out[k]
         case None => match translate(texts[j * size + k])
                      case Some(t) => t
                      case None => texts[j * size + k]
  {
    var start := Start(j, size);
    var batch := Batches(texts, size)[j];
    assert batch[k] == texts[start + k] by {
      BatchAtStart(texts, size, j);
    }
    TranslatedAtStart(texts, size, translateBatch, translate, j, k);
    assert translateBatch(batch).None? ==> BatchOutcome(translateBatch, translate, batch)[k] == Fallback(translate, batch[k]);
    StartIsProduct(j, size);
  }

  /** A batch call that answers each batch with the batch itself leaves the texts
      as they are. */
  lemma {:induction false} TranslatedIdentity(texts: seq<string>, size: nat, translateBatch: BatchOracle, translate: ItemOracle)
    requires size > 0
    requires forall b :: translateBatch(b) == Some(b)
    ensures Translated(texts, size, translateBatch, translate) == texts
    decreases |texts|
  {
    if texts != [] {
      var m := Min(size, |texts|);
      TranslatedIdentity(texts[m..], size, translateBatch, translate);
      TakeDrop(texts, m);
    }
  }
}
